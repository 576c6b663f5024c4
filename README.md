# call-chain-task in Dafny

A model of the call-chain optimiser. The optimiser reads a chain of
`map{…}` and `filter{…}` steps over one integer value, separated by
`%>%`, and rewrites it as one `filter` followed by one `map` that
computes the same thing.

The model covers six parts:

- **Expressions** (`expression.dfy`). A closed datatype covers constants
  (their digit string kept verbatim), `element`, the operators
  `+ - * > < = & |`, and the normalised atoms `GtPoly(p)` (p > 0) and
  `EqPoly(p)` (p = 0).
  - `IsNum` and `IsBool` are the two capabilities.
  - `TRUE` and `FALSE` are the sentinel nodes `(1=1)` and `(1=0)`.
  - `EvalNum` and `EvalBool` give every expression a value at an integer x.
  - `toPolynomial` maps a Num expression to its coefficient sequence.
  - `toString` prints an expression.
- **Polynomials** (`polynomial.dfy`, `polynomial_facts.dfy`). The
  coefficient buffer is a class over an `array<int>`.
  - The constructor, `degree()`, `plus`, `minus` and `times` are methods
    that fill a fresh buffer in place with the source's loops.
  - Each method is proved to compute a specification function: `Degree`,
    `Sum`, `Difference` or `Product`.
  - Those functions are proved to add, subtract and multiply values at
    every x, with the source's failure when a buffer would get a negative
    size.
- **The simplifier** (`simplifier.dfy`). `simplify` normalises
  comparisons to atoms, decides atoms of degree at most 0, and applies the
  `And`/`Or` rules in the source's order.
  - A flag selects the disjunction sign rule, which is wrong (see Findings):
    `true` is the source as written and `false` is the corrected simplifier.
  - Proved: soundness (fully for the corrected one; only "true stays true"
    with the rule), idempotence, and the rule-by-rule meaning.
- **The construction gate and composition** (`expression_utils.dfy`).
  - `safeCreate` checks operand capabilities.
  - `composition` substitutes an expression for `element`. Its value is
    the original evaluated at the substitute's value.
- **Reordering** (`calls.dfy`, `call_chain.dfy`).
  - `reordered()` is a method with the source's two loops. It fuses the
    maps into a list of compositions, then walks the steps with
    `currMap`/`filterExpr`.
  - It is proved equal to a specification over prefixes of the chain.
  - That specification is proved sound: for every x, the original chain
    keeps x exactly when the new filter holds, and both chains then give
    the same value.
  - The `TODO("TypeError")` branch is proved unreachable.
- **The parser and printer** (`parse_utils.dfy`, `parse_facts.dfy`).
  - Each of the six regular-expression shapes of `parseBinaryOperation` is
    a predicate on the index of the operator character. A leading greedy
    `.*` takes the largest index that fits.
  - Proved: printing a parsed expression, step or chain gives back the
    input text, and a parsed chain is well typed.
  - Proved example: the constant operand of the constant-right shape is
    not re-validated, so `((element+element)+)` parses to a sum with the
    empty constant `""`. Its polynomial then fails with a number-format
    error (`ParseFacts.EmptyConstantAccepted`).

Errors are values. A `Result` carries one of these:

- `ParseError`, `TypeError` and `AstError`: the three exception classes;
- `SizeError`: a coefficient buffer created with a negative top index;
- `NumberFormat`: a numeral `BigInteger` cannot read.

## Model

| member | source | states |
|---|---|---|
| Polynomials.Degree | src/main/kotlin/core/utils/PolynomialHelper.kt:15-19 | the degree is -1 or an index of the buffer; the coefficient there is non-zero and every coefficient above it is zero |
| Polynomials.Sum | src/main/kotlin/core/utils/PolynomialHelper.kt:21-32 | the specification of `plus`: coefficient k is a_k + b_k up to the larger degree, or SizeError when both degrees are -1; `Polynomial.Plus` is proved to compute it and `PolynomialFacts.SumCorrect` that it adds values |
| Polynomials.Difference | src/main/kotlin/core/utils/PolynomialHelper.kt:34-41 | the specification of `minus`, coefficient-wise a_k - b_k; `Polynomial.Minus` computes it and `PolynomialFacts.DifferenceCorrect` proves that it subtracts values |
| Polynomials.Product | src/main/kotlin/core/utils/PolynomialHelper.kt:43-53 | the specification of `times`: the convolution up to deg a + deg b, or SizeError below 0; `Polynomial.Times` computes it and `PolynomialFacts.ProductEval` proves that it multiplies values |
| Polynomials.Polynomial.constructor | src/main/kotlin/core/utils/PolynomialHelper.kt:6-13 | `Polynomial(a, b)` holds b+1 coefficients, all zero except coefficient b, which is a; `deg` is its degree |
| Polynomials.Polynomial.ComputeDegree | src/main/kotlin/core/utils/PolynomialHelper.kt:15-19 | the forward scan that remembers the last non-zero index returns exactly `Degree` of the buffer |
| Polynomials.Polynomial.Plus | src/main/kotlin/core/utils/PolynomialHelper.kt:21-32 | fails with SizeError exactly when `Sum` fails (both degrees -1); otherwise returns a fresh, consistent polynomial whose buffer is `Sum` of the operands, and the operands are not modified |
| Polynomials.Polynomial.Minus | src/main/kotlin/core/utils/PolynomialHelper.kt:34-41 | as `Plus`, with `Difference` |
| Polynomials.Polynomial.Times | src/main/kotlin/core/utils/PolynomialHelper.kt:43-53 | fails with SizeError exactly when the degrees sum below 0; otherwise the nested loop leaves exactly `Product` (the convolution) in a fresh buffer |
| Polynomials.Accumulate | src/main/kotlin/core/utils/PolynomialHelper.kt:24-29 | one coefficient loop of `plus`/`minus`: the buffer becomes its old contents plus (or minus) the first n source coefficients, index by index |
| Polynomials.AddRow | src/main/kotlin/core/utils/PolynomialHelper.kt:47-49 | the inner loop of `times` adds a_i*b_j into index i+j for every j below n, and changes nothing else |
| Polynomials.PassesCompute | src/main/kotlin/core/utils/PolynomialHelper.kt:23-29 | the two passes over a zero buffer of size max(deg)+1 leave exactly the coefficient-wise sum (difference) |
| Polynomials.CoefficientWise | src/main/kotlin/core/utils/PolynomialHelper.kt:21-41 | the result buffer has max(deg)+1 entries and entry k is a_k + b_k (a_k - b_k) |
| PolynomialFacts.MonomialEval | src/main/kotlin/core/utils/PolynomialHelper.kt:6-10 | `Polynomial(a, b)` evaluates to a*x^b |
| PolynomialFacts.SumCorrect | src/main/kotlin/core/utils/PolynomialHelper.kt:21-32 | `plus` fails iff both degrees are -1; otherwise its value at every x is the sum of the operands' values |
| PolynomialFacts.DifferenceCorrect | src/main/kotlin/core/utils/PolynomialHelper.kt:34-41 | `minus` fails iff both degrees are -1; otherwise its value at every x is the difference of the operands' values |
| PolynomialFacts.DifferenceSelf | src/main/kotlin/core/utils/PolynomialHelper.kt:34-41 | p - p has degree -1 for every p of degree at least 0 |
| PolynomialFacts.ConvolveEval | src/main/kotlin/core/utils/PolynomialHelper.kt:46-50 | after the first i rows of the convolution, the buffer evaluates to (a truncated below power i) times b |
| PolynomialFacts.RowUpdateEval | src/main/kotlin/core/utils/PolynomialHelper.kt:47-49 | one row adds a_i*x^i times the first j terms of b to the buffer's value |
| PolynomialFacts.ProductEval | src/main/kotlin/core/utils/PolynomialHelper.kt:43-53 | `times` evaluates to the product of the operands' values |
| PolynomialFacts.ProductCorrect | src/main/kotlin/core/utils/PolynomialHelper.kt:43-53 | `times` fails iff deg a + deg b < 0, and for non-zero operands deg(a*b) = deg a + deg b |
| PolynomialFacts.ConstantEval | src/main/kotlin/core/model/Expression.kt:91-93 | a polynomial of degree at most 0 evaluates to its coefficient 0 everywhere, which is what deciding an atom relies on |
| PolynomialFacts.SameCoefficientsEval | src/main/kotlin/core/model/Expression.kt:155 | polynomials that are `eq` have the same value at every x |
| PolynomialFacts.NegatedEval | src/main/kotlin/core/model/Expression.kt:154 | if p is `negEq` to q then p(x) = -q(x) at every x |
| Expressions.SentinelsEval | src/main/kotlin/core/model/Expression.kt:15-17 | TRUE holds and FALSE fails at every x |
| Expressions.ToPolynomialLeaves | src/main/kotlin/core/model/Expression.kt:24-32 | `element` maps to [0, 1], a readable constant k to [k], and an unreadable numeral to a number-format failure |
| Expressions.ToPolynomialSound | src/main/kotlin/core/model/Expression.kt:46-74 | the polynomial of a well-typed Num expression evaluates to the expression's value at every x |
| Expressions.ToPolynomial | src/main/kotlin/core/model/Expression.kt:24-74 | `toPolynomial` on a Num expression: a coefficient sequence, or the numeral or buffer-size failure; its value at every x is the expression's (`ToPolynomialSound`) |
| Expressions.ToString | src/main/kotlin/core/model/Expression.kt:19-39 | `toString`: a constant's own text, `element`, or `(l op r)`; parsing it back gives the expression (`ParseFacts.ParseRoundTrip`) |
| ExpressionUtils.OpOfToken | src/main/kotlin/core/utils/ExpressionUtils.kt:9-50 | the operator a token selects prints as that token |
| ExpressionUtils.OpNameRoundTrip | src/main/kotlin/core/utils/ExpressionUtils.kt:9-50 | every operator's own name selects it |
| ExpressionUtils.SafeCreate | src/main/kotlin/core/utils/ExpressionUtils.kt:8-52 | `safeCreate`: the node for a known token when the operands have the capability it needs; its cases are stated both ways by `SafeCreateCorrect` |
| ExpressionUtils.Compose | src/main/kotlin/core/utils/ExpressionUtils.kt:54-75 | `composition`: `element` replaced by the substitute through `safeCreate`; its value is stated by `ComposeEval` and its failures by `ComposeTotal` and `ComposeBoolSubstitute` |
| ExpressionUtils.SafeCreateCorrect | src/main/kotlin/core/utils/ExpressionUtils.kt:8-52 | an unknown token gives ParseError. A known token builds its node iff both operands have the capability it needs (Num for the arithmetic operators and comparisons, Bool for conjunction and disjunction), and gives TypeError otherwise. The node is Num iff the token is `+ - *` |
| ExpressionUtils.ComposeKeepsCapability | src/main/kotlin/core/utils/ExpressionUtils.kt:58-70 | composition keeps the operator of a composite node, so a Bool stays Bool and, with a Num substitute, a Num stays Num |
| ExpressionUtils.ComposeWellTyped | src/main/kotlin/core/utils/ExpressionUtils.kt:54-75 | a composition that succeeds with a well-typed substitute is well typed |
| ExpressionUtils.ComposeTotal | src/main/kotlin/core/utils/ExpressionUtils.kt:54-75 | composing a well-typed expression without atoms with a Num substitute never fails |
| ExpressionUtils.ComposeEval | src/main/kotlin/core/utils/ExpressionUtils.kt:54-75 | a.composition(b) at x has the value (and truth) of a at the value of b at x |
| ExpressionUtils.ComposeIdentity | src/main/kotlin/core/utils/ExpressionUtils.kt:56-72 | composing with `element` gives back the same expression |
| ExpressionUtils.ComposeBoolSubstitute | src/main/kotlin/core/utils/ExpressionUtils.kt:10-39 | a Bool substitute for an `element` that is either operand of an arithmetic or comparison node is a TypeError |
| Simplifier.Simplify | src/main/kotlin/core/model/Expression.kt:82-187 | `simplify` returns a well-typed Bool expression, or the failure of normalising a comparison |
| Simplifier.SimplifyGtPoly | src/main/kotlin/core/model/Expression.kt:90-96 | `GtPoly.simplify` returns a well-typed Bool expression; its meaning is `SimplifyGtPolyMeaning` |
| Simplifier.SimplifyEqPoly | src/main/kotlin/core/model/Expression.kt:126-132 | `EqPoly.simplify` returns a well-typed Bool expression; its meaning is `SimplifyEqPolyMeaning` |
| Simplifier.SimplifyGtPolyMeaning | src/main/kotlin/core/model/Expression.kt:90-96 | `GtPoly.simplify` keeps the truth value p(x) > 0; it returns a sentinel iff the degree is at most 0 and the atom itself otherwise |
| Simplifier.SimplifyEqPolyMeaning | src/main/kotlin/core/model/Expression.kt:126-132 | `EqPoly.simplify` keeps the truth value p(x) = 0; it returns a sentinel iff the degree is at most 0 and the atom itself otherwise |
| Simplifier.ComparisonSound | src/main/kotlin/core/model/Expression.kt:82-124 | `Gt`, `Lt` and `Eq` normalise to GtPoly(l-r), GtPoly(r-l) and EqPoly(l-r), with the comparison's truth value at every x |
| Simplifier.CombineAnd | src/main/kotlin/core/model/Expression.kt:145-162 | the rule chain of `And.simplify` returns a well-typed Bool expression; its meaning is `CombineAndMeaning` |
| Simplifier.AndPair | src/main/kotlin/core/model/Expression.kt:152-161 | the atom-pair rules of `And` return a well-typed Bool expression; their meaning is `AndPairMeaning` |
| Simplifier.CombineOr | src/main/kotlin/core/model/Expression.kt:170-187 | the rule chain of `Or.simplify` returns a well-typed Bool expression; its meaning is `CombineOrMeaning` |
| Simplifier.OrPair | src/main/kotlin/core/model/Expression.kt:177-186 | the atom-pair rules of `Or` return a well-typed Bool expression; their meaning is `OrPairMeaning` |
| Simplifier.CombineAndMeaning | src/main/kotlin/core/model/Expression.kt:145-162 | the rule chain of `And.simplify` is true at x iff both simplified operands are |
| Simplifier.AndPairMeaning | src/main/kotlin/core/model/Expression.kt:152-161 | the atom-pair rules of `And` (p>0 & -p>0 is FALSE, duplicates collapse, p=0 & ±p=0 is p=0) keep the conjunction's truth value |
| Simplifier.CombineOrMeaning | src/main/kotlin/core/model/Expression.kt:170-187 | the rule chain of `Or.simplify` is true whenever an operand is; without the sign rule, exactly when an operand is |
| Simplifier.OrPairMeaning | src/main/kotlin/core/model/Expression.kt:177-186 | the atom-pair rules of `Or` never lose a true disjunction; without the sign rule they keep its truth value |
| Simplifier.PairFacts | src/main/kotlin/core/model/Expression.kt:154-159 | `negEq` atoms have opposite polynomial values and `eq` atoms equal ones |
| Simplifier.SimplifySound | src/main/kotlin/core/model/Expression.kt:82-187 | whatever is true before simplifying is true after; with the corrected simplifier the truth value is the same at every x |
| Simplifier.SimplifyConnective | src/main/kotlin/core/model/Expression.kt:145-147 | conjunction and disjunction simplify both operands and then apply their rule chain to the results |
| Simplifier.SimplifyIdempotent | src/main/kotlin/core/model/Expression.kt:82-187 | simplifying a simplified expression gives it back unchanged |
| Simplifier.SentinelsFixed | src/main/kotlin/core/model/Expression.kt:118-132 | TRUE and FALSE simplify to themselves |
| Simplifier.ZeroLiteralComparison | src/main/kotlin/core/utils/PolynomialHelper.kt:15-19 | with the degree taken by value, `(0=0)` and `(0>0)` fail with SizeError when their difference is formed, while `(element>0)` is kept as the atom element > 0 |
| Simplifier.AtomsFixed | src/main/kotlin/core/model/Expression.kt:90-96 | the result of deciding an atom is a fixed point of `simplify` |
| Simplifier.CombineFixed | src/main/kotlin/core/model/Expression.kt:145-187 | the `And`/`Or` rule chains applied to fixed points give fixed points |
| Simplifier.SignRuleCollapses | src/main/kotlin/core/model/Expression.kt:177-181 | with p and q negated and different, the sign rule turns the disjunction p>0 or q>0 into TRUE, the corrected rule keeps the disjunction, and the disjunction is false wherever p(x) = 0 |
| Simplifier.SignDisjunction | src/main/kotlin/core/model/Expression.kt:170-181 | a disjunction whose operands normalise to p>0 and -p>0 simplifies to TRUE with the rule and stays a disjunction without it |
| Simplifier.OrSignRuleUnsound | src/main/kotlin/core/model/Expression.kt:179 | the condition element>0 or element<0 simplifies to TRUE, which holds at x = 0, while the condition is false at x = 0 |
| Simplifier.OrSignRuleDropped | src/main/kotlin/core/model/Expression.kt:177-182 | without the rule, the same condition simplifies to the disjunction of element>0 and -element>0 |
| Calls.CallToString | src/main/kotlin/core/model/Call.kt:7-22 | `map{e}` and `filter{c}`; parsing the printed step gives it back (`ParseFacts.ParseCallRoundTrip`) |
| CallChains.Join | src/main/kotlin/core/CallChain.kt:8 | `joinToString`: the pieces with the separator between them; splitting the result gives the pieces back (`ParseFacts.JoinSplit`) |
| CallChains.ChainToString | src/main/kotlin/core/CallChain.kt:6-10 | the printed steps joined by `%>%`; it prints a parsed chain back to its text (`ParseFacts.ParseCallChainRoundTrip`) |
| CallChains.Reorder | src/main/kotlin/core/CallChain.kt:12-35 | the specification of `reordered()`: one filter holding the condition (TRUE if none) and one map holding the last composition (`element` if none); `Reordered` computes it and `ReorderSound` proves it keeps the chain's meaning |
| CallChains.ReorderSimplified | src/test/kotlin/ReorderingTest.kt:80-96 | `Reorder` followed by simplifying its filter; `ReorderSimplifiedSound` proves it keeps the chain's meaning |
| CallChains.Fused | src/main/kotlin/core/CallChain.kt:13-19 | the map compositions, one per map, or the first composition failure |
| CallChains.FuseMaps | src/main/kotlin/core/CallChain.kt:13-19 | the first loop leaves exactly `Fused`: entry i is map i composed with entry i-1, and the first failure is reported |
| CallChains.PushFilters | src/main/kotlin/core/CallChain.kt:20-28 | the second loop, with `currMap` and `filterExpr`, returns exactly the condition of the whole chain |
| CallChains.Reordered | src/main/kotlin/core/CallChain.kt:12-35 | `reordered()` returns exactly the specified reordering |
| CallChains.LastMapStep | src/main/kotlin/core/CallChain.kt:21-27 | `currMap` moves on by one at each map, and a filter is composed with the last map composition seen (left alone before any map) |
| CallChains.ConditionMapStep | src/main/kotlin/core/CallChain.kt:27 | a map step leaves the filter condition unchanged |
| CallChains.ConditionFilterStep | src/main/kotlin/core/CallChain.kt:23-26 | a filter step conjoins its rewritten condition on the right, or fails as the rewriting does |
| CallChains.PushFilterStep | src/main/kotlin/core/CallChain.kt:23-26 | the rewritten filter is Bool, so the `TODO` branch is never taken, and a rewriting failure is the failure of the whole reordering |
| CallChains.FusedFailureStays | src/main/kotlin/core/CallChain.kt:17-18 | a failure while fusing a prefix of the maps is the failure of the whole fusion |
| CallChains.ConditionFailureStays | src/main/kotlin/core/CallChain.kt:22-24 | a failure in rewriting a filter is the failure of the whole condition |
| CallChains.ReorderEmpty | src/main/kotlin/core/CallChain.kt:29-34 | the empty chain reorders to `filter{TRUE}%>%map{element}` |
| CallChains.ReorderShape | src/main/kotlin/core/CallChain.kt:29-34 | the result is one filter followed by one map; with no maps the map is `element`, and with no filters the filter is TRUE |
| CallChains.NoFilterNoCondition | src/main/kotlin/core/CallChain.kt:20-28 | a chain of maps only accumulates no condition |
| CallChains.FusedEval | src/main/kotlin/core/CallChain.kt:13-19 | map composition i evaluates to applying the first i+1 maps in order |
| CallChains.RewrittenEval | src/main/kotlin/core/CallChain.kt:24 | a rewritten filter holds at x iff the original condition holds at the value the earlier maps give x |
| CallChains.ConditionEval | src/main/kotlin/core/CallChain.kt:20-28 | after every prefix, the accumulated condition holds at x iff that prefix keeps x, and a kept value is the maps applied in order |
| CallChains.ReorderSound | src/main/kotlin/core/CallChain.kt:12-35 | for every x, the original chain keeps x iff the new filter holds at x, and then both chains give the same value |
| CallChains.FusedTotal | src/main/kotlin/core/CallChain.kt:13-19 | with well-typed Num maps, fusion never fails and every composition is a well-typed Num |
| CallChains.ConditionTotal | src/main/kotlin/core/CallChain.kt:20-28 | with parsed steps and Num compositions, pushing the filters never fails |
| CallChains.RewrittenTotal | src/main/kotlin/core/CallChain.kt:24 | such a filter's rewriting never fails |
| CallChains.ReorderTotal | src/main/kotlin/core/CallChain.kt:12-35 | a chain of parsed steps (well typed, free of atoms) whose maps are Num always reorders |
| CallChains.ConditionTyped | src/main/kotlin/core/CallChain.kt:20-28 | the accumulated condition is a well-typed Bool |
| CallChains.RewrittenTyped | src/main/kotlin/core/CallChain.kt:24-25 | a rewritten filter is a well-typed Bool, so the `TODO("TypeError")` branch is unreachable |
| CallChains.ReorderTyped | src/main/kotlin/core/CallChain.kt:29-34 | the reordered filter is a well-typed Bool expression |
| CallChains.BoolMapRejected | src/main/kotlin/core/model/Call.kt:7-11 | a map step may hold a Bool; fusing it into a later map that uses `element` as a number fails with TypeError |
| CallChains.ReorderSimplifiedSound | src/test/kotlin/ReorderingTest.kt:80-96 | the variant that also simplifies the new filter (corrected simplifier) keeps the soundness of `ReorderSound` |
| ParseUtils.FindSplit | src/main/kotlin/core/utils/ParseUtils.kt:48-94 | the largest operator index at most k at which a shape fits, or none, and no larger index fits |
| ParseUtils.FirstMatch | src/main/kotlin/core/utils/ParseUtils.kt:48-94 | the first shape in the source's order that fits somewhere, at its largest index; no earlier shape fits anywhere |
| ParseUtils.ParseExpression | src/main/kotlin/core/utils/ParseUtils.kt:29-36 | a parsed expression is well typed and built only from textual nodes |
| ParseUtils.ParseBinaryOperation | src/main/kotlin/core/utils/ParseUtils.kt:44-100 | a parsed binary operation is a well-typed binary node |
| ParseUtils.ParseCall | src/main/kotlin/core/utils/ParseUtils.kt:13-27 | a parsed step's expression is well typed, and a filter's condition is Bool |
| ParseUtils.Split | src/main/kotlin/core/utils/ParseUtils.kt:9 | `split("%>%")`: one more piece than separators, empty pieces kept; joining the pieces gives back the text (`ParseFacts.JoinSplit`) |
| ParseUtils.IndexOf | src/main/kotlin/core/utils/ParseUtils.kt:9 | the first occurrence of the separator at or after an index, or none at all |
| ParseUtils.ParseCalls | src/main/kotlin/core/utils/ParseUtils.kt:10 | one step per piece, all well typed and printable |
| ParseUtils.ParseCallChain | src/main/kotlin/core/utils/ParseUtils.kt:8-11 | `parseCallChain`: the pieces between separators, each parsed as a step; it prints back to its text (`ParseFacts.ParseCallChainRoundTrip`) |
| ParseFacts.ParseRoundTrip | src/main/kotlin/core/utils/ParseUtils.kt:29-36 | printing a parsed expression gives back exactly its text |
| ParseFacts.ParseBinaryRoundTrip | src/main/kotlin/core/utils/ParseUtils.kt:44-100 | printing a parsed binary operation gives back exactly its text |
| ParseFacts.ParsedAlphabet | src/main/kotlin/core/utils/ParseUtils.kt:29-100 | text that parses uses only digits, `-`, the operator characters, parentheses and the letters of `element` |
| ParseFacts.ParseRejects | src/main/kotlin/core/utils/ParseUtils.kt:44-100 | text that is not `element`, a constant or parenthesised gives ParseError, and text with any other character (a space, say) fails |
| ParseFacts.ParseConstant | src/main/kotlin/core/utils/ParseUtils.kt:38-42 | a `-?\d+` literal parses to the constant with that very text, which is a readable numeral |
| ParseFacts.ParseCallRoundTrip | src/main/kotlin/core/utils/ParseUtils.kt:13-27 | printing a parsed step gives back its text |
| ParseFacts.ParseCallWrapped | src/main/kotlin/core/utils/ParseUtils.kt:13-27 | `map{t}` is a map step for any expression t parses to, Bool or Num; `filter{t}` is a filter step when t parses to a Bool; a failure to parse t is the step's failure |
| ParseFacts.FilterNumRejected | src/main/kotlin/core/utils/ParseUtils.kt:18-21 | `filter{t}` whose t parses to a Num expression, such as `filter{(element+10)}`, is a TypeError |
| ParseFacts.NotAStepRejected | src/main/kotlin/core/utils/ParseUtils.kt:14-25 | text that does not end with a brace, or starts with neither `map{` nor `filter{`, is a ParseError |
| ParseFacts.ParseCallsRoundTrip | src/main/kotlin/core/utils/ParseUtils.kt:10 | printing the parsed steps gives back the pieces |
| ParseFacts.JoinSplit | src/main/kotlin/core/utils/ParseUtils.kt:9 | joining the pieces of a split with the separator gives back the text |
| ParseFacts.ParseCallChainRoundTrip | src/main/kotlin/core/utils/ParseUtils.kt:8-11 | a parsed chain has one step per piece between separators and prints back to its text |
| ParseFacts.ParsedChainWellTyped | src/main/kotlin/core/utils/ParseUtils.kt:8-11 | a parsed chain meets what `ReorderSound` needs |
| ParseFacts.FirstMatchIs | src/main/kotlin/core/utils/ParseUtils.kt:48-94 | the shape that fits, when no earlier shape fits and no larger index does, is the one selected |
| ParseFacts.ConstantRightAddition | src/main/kotlin/core/utils/ParseUtils.kt:72-78 | the constant-right shape takes its right operand as a constant without checking it |
| ParseFacts.EmptyConstantAccepted | src/main/kotlin/core/utils/ParseUtils.kt:72-78 | `((element+element)+)` parses, with the empty constant `""` on the right, and its polynomial fails with a number-format error |

## Left out

- `client/cmd.kt` (console input and output) is not part of this model.
- The exception classes of `Exceptions.kt` are the error kinds `ParseError`, `TypeError` and `AstError` of a `Result`. The JVM failures the code can raise are two more kinds: a negative buffer size (`SizeError`) and an unreadable numeral (`NumberFormat`).
- Regular-expression backtracking is not modelled. Each shape is a predicate on the operator's index, and the greedy `.*` takes the largest index. Completeness of the parser is not claimed: it does not retry after a failed recursive parse.
- Polynomials.Degree: compares coefficients with zero by value, where `degree()` uses `!==`, reference identity on `BigInteger`. The numeral of a zero literal (`0`, `-0`, `00`) is a zero that is not the shared zero object, so the source gives that literal's own polynomial degree 0, while the model gives it -1. Every zero that `plus`, `minus` and `times` produce is the shared zero object (adding or subtracting returns an operand or the shared zero, and multiplying by zero returns the shared zero), so on every arithmetic result the two degrees agree. The model therefore fails with SizeError where the source does not exactly when a zero literal's own polynomial is an operand of `+` or `-` (or of the difference a comparison forms) whose other operand has degree -1 by value, as in `(0=0)`, `(0>0)` (`Simplifier.ZeroLiteralComparison`), `((element-element)=0)` and `((element*0)>0)`, or a factor of `*` whose other factor is a zero literal or has degree 0 by value, as in `((0*5)>1)`. Every other result is the same: `(element>0)`, say, is kept as the atom element > 0 in both.
- Atoms are compared by value in the duplicate rules of `And`/`Or` (Expression.kt:151,176). The source compares `GtPoly`/`EqPoly` objects by reference, because `Polynomial` defines no `equals`.
- `eq` and `negEq` are called at Expression.kt:154-184 but defined nowhere. `SameCoefficients` takes `eq` as equal trimmed coefficients. `Negated` takes `negEq` as p = -q on the trimmed coefficients.
- `reordered()` calls `compWith`; the file defines `composition`. Both are `Compose`.
- `reordered()` does not simplify its filter, and is modelled as written. `ReorderSimplified` is the simplifying variant the reordering tests describe.
- `MapCallPoly` and printing of `Polynomial` are left out. No printing of polynomials exists in these sources, and neither the parser nor the reordering creates a `MapCallPoly`.
- APIs that only the tests use are left out: `asPolynomial`, `Polynomial(list)` and `simplify` on Num expressions.
- Arbitrary-precision integers are Dafny `int`. Kotlin data-class equality is datatype equality.
- Expressions hold polynomials as values (`seq<int>`), not as shared `Polynomial` objects. `Plus`, `Minus` and `Times` on the class are proved to compute the same sequences as `Sum`, `Difference` and `Product`.
- Polynomials.Polynomial.constructor: takes a non-negative index. The source throws for a negative one, and every caller here returns `SizeError` before that point.
- `EvalNum` gives 0 to an unreadable numeral and to a Bool node. `EvalBool` gives false to a Num node. Neither case arises in a well-typed expression whose polynomial succeeds.
- `ToString` requires an expression without atoms, since `GtPoly`/`EqPoly` print through the missing polynomial printer.

## Findings

| source | as written | input that shows it | evidently intended | confidence | as-written member | corrected member |
|---|---|---|---|---|---|---|
| src/main/kotlin/core/model/Expression.kt:179 | `Or.simplify` turns the disjunction of p>0 and -p>0 into TRUE, assuming p cannot be 0 | the filter condition element>0 or element<0 at x = 0: the condition is false, the simplified one is TRUE | a simplification that keeps the condition's truth value, so the disjunction stays | not executed | Simplifier.OrSignRuleUnsound | Simplifier.SimplifySound |
