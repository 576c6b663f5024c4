/** The parser: a chain is split on "%>%", each piece is a `map{…}` or
    `filter{…}` step, and an expression is `element`, a constant, or a fully
    parenthesised binary operation recognised by one of six patterns.

    Each pattern is a predicate on the index k of the operator character in
    the text "(" + left + op + right + ")". Where a pattern begins with a
    greedy `.*`, the regular-expression engine commits to the largest k that
    lets the whole pattern match; for the other patterns at most one k fits.
    Once a pattern matches, a failure to parse an operand is final: no other
    pattern and no other k is tried. */
module ParseUtils {
  import opened Outcomes
  import opened Expressions
  import opened ExpressionUtils
  import opened Calls
  import opened CallChains

  // ---------------------------------------------------------------------
  // Character classes

  /** The operator class `[-<>=&|*+]`. */
  predicate IsOpChar(c: char) {
    c == '-' || c == '<' || c == '>' || c == '=' || c == '&' || c == '|' || c == '*' || c == '+'
  }

  /** The characters `.` does not match: the line terminators. */
  predicate IsLineBreak(c: char) {
    c == '\n' || c == '\r' || c == '\U{0085}' || c == '\U{2028}' || c == '\U{2029}'
  }

  /** Text that `.*` matches. */
  predicate NoLineBreak(t: string) {
    forall i :: 0 <= i < |t| ==> !IsLineBreak(t[i])
  }

  /** `-?\d+`: what `parseConstantExpression` accepts. */
  predicate IsConstantLiteral(s: string) {
    (|s| > 0 && AllDigits(s)) || (|s| > 1 && s[0] == '-' && AllDigits(s[1..]))
  }

  /** `-[0-9]*` when signed, `[0-9]*` otherwise: possibly no digit at all. */
  predicate ConstantPattern(t: string, signed: bool) {
    if signed then |t| > 0 && t[0] == '-' && AllDigits(t[1..]) else AllDigits(t)
  }

  /** `\(.*\)`. */
  predicate Parenthesised(t: string) {
    |t| >= 2 && t[0] == '(' && t[|t| - 1] == ')' && NoLineBreak(t)
  }

  // ---------------------------------------------------------------------
  // The six patterns of `parseBinaryOperation`

  datatype Shape =
    | ElementLeft                                 // \(element([ops])(.*)\)
    | ElementRight                                // \((.*)([ops])element\)
    | BothParenthesised                           // \((\(.*\))([ops])(\(.*\))\)
    | ConstantRight(signed: bool)                 // \((\(.*\))([ops])(-?[0-9]*)\)
    | ConstantLeft(signed: bool)                  // \((-?[0-9]*)([ops])(\(.*\))\)
    | BothConstants(signedL: bool, signedR: bool) // \((-?[0-9]*)([ops])(-?[0-9]*)\)

  /** The patterns in the order they are tried, a signed constant before an unsigned one. */
  const Shapes: seq<Shape> := [
    ElementLeft, ElementRight, BothParenthesised,
    ConstantRight(true), ConstantRight(false),
    ConstantLeft(true), ConstantLeft(false),
    BothConstants(true, true), BothConstants(false, true), BothConstants(true, false), BothConstants(false, false)
  ]

  function Left(s: string, k: nat): string
    requires 1 <= k <= |s| - 2
  {
    s[1..k]
  }

  function Right(s: string, k: nat): string
    requires 1 <= k <= |s| - 2
  {
    s[k + 1..|s| - 1]
  }

  /** The pattern matches the whole of s with its operator at index k. */
  predicate Fits(sh: Shape, s: string, k: nat) {
    1 <= k <= |s| - 2 && s[0] == '(' && s[|s| - 1] == ')' && IsOpChar(s[k]) &&
    var l, r := Left(s, k), Right(s, k);
    match sh
    case ElementLeft => l == "element" && NoLineBreak(r)
    case ElementRight => NoLineBreak(l) && r == "element"
    case BothParenthesised => Parenthesised(l) && Parenthesised(r)
    case ConstantRight(sg) => Parenthesised(l) && ConstantPattern(r, sg)
    case ConstantLeft(sg) => ConstantPattern(l, sg) && Parenthesised(r)
    case BothConstants(sgL, sgR) => ConstantPattern(l, sgL) && ConstantPattern(r, sgR)
  }

  /** The largest operator index at most k at which the pattern matches. */
  function FindSplit(sh: Shape, s: string, k: nat): (r: Option<nat>)
    ensures r.Some? ==> r.value <= k && Fits(sh, s, r.value)
    ensures r.Some? ==> forall j :: r.value < j <= k ==> !Fits(sh, s, j)
    ensures r.None? ==> forall j :: 0 <= j <= k ==> !Fits(sh, s, j)
  {
    if k == 0 then None
    else if Fits(sh, s, k) then Some(k)
    else FindSplit(sh, s, k - 1)
  }

  /** The first pattern, from index i of `Shapes` on, that matches s, with its operator index. */
  function FirstMatch(s: string, i: nat): (r: Option<(nat, nat)>)
    requires i <= |Shapes|
    ensures r.Some? ==> i <= r.value.0 < |Shapes| && Fits(Shapes[r.value.0], s, r.value.1)
    ensures r.Some? ==> forall j, k :: i <= j < r.value.0 && 0 <= k < |s| ==> !Fits(Shapes[j], s, k)
    ensures r.Some? ==> forall k :: r.value.1 < k < |s| ==> !Fits(Shapes[r.value.0], s, k)
    ensures r.None? ==> forall j, k :: i <= j < |Shapes| && 0 <= k < |s| ==> !Fits(Shapes[j], s, k)
    decreases |Shapes| - i
  {
    if i == |Shapes| then None
    else if |s| < 3 then None
    else
      match FindSplit(Shapes[i], s, |s| - 2)
      case Some(k) => Some((i, k))
      case None => FirstMatch(s, i + 1)
  }

  // ---------------------------------------------------------------------
  // Expressions

  /** `parseExpression`: `element`, then a constant, then a binary operation. */
  function ParseExpression(s: string): (r: Result<Expr>)
    ensures r.Ok? ==> WellTyped(r.value) && NoAtoms(r.value)
    decreases |s|, 1
  {
    if s == "element" then Ok(Element)
    else if IsConstantLiteral(s) then Ok(Const(s))
    else ParseBinaryOperation(s)
  }

  /** `parseBinaryOperation`: the operands of the first matching pattern are
      parsed (element and the constants of the constant-left and
      constant-right patterns are taken as they are) and the node is built
      through the gate. */
  function ParseBinaryOperation(s: string): (r: Result<Expr>)
    ensures r.Ok? ==> WellTyped(r.value) && NoAtoms(r.value)
    ensures r.Ok? ==> r.value.Bin?
    decreases |s|, 0
  {
    match FirstMatch(s, 0)
    case None => Err(ParseError)
    case Some((i, k)) =>
      var sh, l, r := Shapes[i], Left(s, k), Right(s, k);
      var le :- if sh.ElementLeft? then Ok(Element) else if sh.ConstantLeft? then Ok(Const(l)) else ParseExpression(l);
      var re :- if sh.ElementRight? then Ok(Element) else if sh.ConstantRight? then Ok(Const(r)) else ParseExpression(r);
      SafeCreate(s[k..k + 1], le, re)
  }

  // ---------------------------------------------------------------------
  // Steps and chains

  predicate StartsWith(s: string, prefix: string) {
    |prefix| <= |s| && s[..|prefix|] == prefix
  }

  predicate EndsWithBrace(s: string) {
    |s| > 0 && s[|s| - 1] == '}'
  }

  /** `parseCall`: `map{…}` gives a map step, `filter{…}` a filter step
      whose condition must be Bool. */
  function ParseCall(c: string): (r: Result<Call>)
    ensures r.Ok? ==> WellTyped(r.value.Body()) && NoAtoms(r.value.Body())
    ensures r.Ok? && r.value.FilterCall? ==> IsBool(r.value.condition)
  {
    if StartsWith(c, "map{") && EndsWithBrace(c) then
      var e :- ParseExpression(c[4..|c| - 1]);
      Ok(MapCall(e))
    else if StartsWith(c, "filter{") && EndsWithBrace(c) then
      var e :- ParseExpression(c[7..|c| - 1]);
      if IsBool(e) then Ok(FilterCall(e)) else Err(TypeError)
    else Err(ParseError)
  }

  /** `sep` occurs in s starting at index j. */
  predicate OccursAt(s: string, sep: string, j: nat) {
    j + |sep| <= |s| && s[j..j + |sep|] == sep
  }

  /** Index of the first occurrence of `sep` in s at or after `from`. */
  function IndexOf(s: string, sep: string, from: nat): (r: Option<nat>)
    requires |sep| > 0
    ensures r.Some? ==> from <= r.value && OccursAt(s, sep, r.value)
    ensures r.Some? ==> forall j: nat :: from <= j < r.value ==> !OccursAt(s, sep, j)
    ensures r.None? ==> forall j: nat :: from <= j ==> !OccursAt(s, sep, j)
    decreases |s| - from
  {
    if from + |sep| > |s| then None
    else if OccursAt(s, sep, from) then Some(from)
    else IndexOf(s, sep, from + 1)
  }

  /** `split`: the pieces between successive occurrences of `sep`, keeping
      empty pieces, so there is always one more piece than occurrences. */
  function Split(s: string, sep: string): (r: seq<string>)
    requires |sep| > 0
    ensures |r| > 0
    decreases |s|
  {
    match IndexOf(s, sep, 0)
    case None => [s]
    case Some(i) => [s[..i]] + Split(s[i + |sep|..], sep)
  }

  /** The steps in order; the first piece that fails decides the failure. */
  function ParseCalls(pieces: seq<string>): (r: Result<seq<Call>>)
    ensures r.Ok? ==> |r.value| == |pieces|
    ensures r.Ok? ==> WellTypedCalls(r.value) && PrintableCalls(r.value)
  {
    if |pieces| == 0 then Ok([])
    else
      var c :- ParseCall(pieces[0]);
      var rest :- ParseCalls(pieces[1..]);
      assert forall i :: 1 <= i < |[c] + rest| ==> ([c] + rest)[i] == rest[i - 1];
      Ok([c] + rest)
  }

  /** `parseCallChain`. */
  function ParseCallChain(s: string): Result<CallChain> {
    var calls :- ParseCalls(Split(s, Separator));
    Ok(CallChain(calls))
  }
}
