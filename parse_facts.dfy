/** What the parser guarantees: printing what it parsed gives back the text,
    it accepts only the characters the printer produces, and it rejects
    text that is not fully parenthesised. */
module ParseFacts {
  import opened Outcomes
  import opened Expressions
  import opened ExpressionUtils
  import opened Calls
  import opened CallChains
  import opened ParseUtils

  /** A text that is "(" + its left part + the operator + its right part + ")". */
  lemma Reassemble(s: string, k: nat)
    requires 1 <= k <= |s| - 2 && s[0] == '(' && s[|s| - 1] == ')'
    ensures s == "(" + Left(s, k) + s[k..k + 1] + Right(s, k) + ")"
  {
    assert s == s[..1] + s[1..k] + s[k..k + 1] + s[k + 1..|s| - 1] + s[|s| - 1..];
  }

  /** Printing a parsed expression gives back exactly the text it was parsed from. */
  lemma {:induction false} ParseRoundTrip(s: string)
    requires ParseExpression(s).Ok?
    ensures ToString(ParseExpression(s).value) == s
    decreases |s|, 1
  {
    if s != "element" && !IsConstantLiteral(s) {
      ParseBinaryRoundTrip(s);
    }
  }

  lemma {:induction false} ParseBinaryRoundTrip(s: string)
    requires ParseBinaryOperation(s).Ok?
    ensures ToString(ParseBinaryOperation(s).value) == s
    decreases |s|, 0
  {
    var (i, k) := FirstMatch(s, 0).value;
    var sh, l, r := Shapes[i], Left(s, k), Right(s, k);
    var le := if sh.ElementLeft? then Ok(Element) else if sh.ConstantLeft? then Ok(Const(l)) else ParseExpression(l);
    var re := if sh.ElementRight? then Ok(Element) else if sh.ConstantRight? then Ok(Const(r)) else ParseExpression(r);
    if !sh.ElementLeft? && !sh.ConstantLeft? {
      ParseRoundTrip(l);
    }
    if !sh.ElementRight? && !sh.ConstantRight? {
      ParseRoundTrip(r);
    }
    OpNameRoundTrip(OpOfToken(s[k..k + 1]).value);
    Reassemble(s, k);
  }

  /** The characters the printer emits for a parsed expression. */
  predicate InAlphabet(c: char) {
    IsOpChar(c) || IsDigit(c) || c == '(' || c == ')' ||
    c == 'e' || c == 'l' || c == 'm' || c == 'n' || c == 't'
  }

  predicate AllInAlphabet(s: string) {
    forall i :: 0 <= i < |s| ==> InAlphabet(s[i])
  }

  /** Both parts of a text in the alphabet are in the alphabet, and so is the whole. */
  lemma AlphabetJoin(s: string, k: nat)
    requires 1 <= k <= |s| - 2 && s[0] == '(' && s[|s| - 1] == ')' && IsOpChar(s[k])
    requires AllInAlphabet(Left(s, k)) && AllInAlphabet(Right(s, k))
    ensures AllInAlphabet(s)
  {
    forall j | 0 <= j < |s|
      ensures InAlphabet(s[j])
    {
      if 1 <= j < k {
        assert s[j] == Left(s, k)[j - 1];
      } else if k < j < |s| - 1 {
        assert s[j] == Right(s, k)[j - k - 1];
      }
    }
  }

  lemma ConstantInAlphabet(t: string, signed: bool)
    requires ConstantPattern(t, signed)
    ensures AllInAlphabet(t)
  {
    if signed {
      forall j | 1 <= j < |t|
        ensures InAlphabet(t[j])
      {
        assert t[j] == t[1..][j - 1];
      }
    }
  }

  /** A text the parser accepts holds only operator characters, digits,
      parentheses and the letters of `element`: no space, no other operator. */
  lemma {:induction false} ParsedAlphabet(s: string)
    requires ParseExpression(s).Ok?
    ensures AllInAlphabet(s)
    decreases |s|, 1
  {
    if s == "element" {
    } else if IsConstantLiteral(s) {
      if s[0] == '-' {
        ConstantInAlphabet(s, true);
      }
    } else {
      ParsedBinaryAlphabet(s);
    }
  }

  lemma {:induction false} ParsedBinaryAlphabet(s: string)
    requires ParseBinaryOperation(s).Ok?
    ensures AllInAlphabet(s)
    decreases |s|, 0
  {
    var m := FirstMatch(s, 0).value;
    var sh, k := Shapes[m.0], m.1;
    OperandsParsed(s);
    if !sh.ElementLeft? && !sh.ConstantLeft? {
      ParsedAlphabet(Left(s, k));
    }
    if !sh.ElementRight? && !sh.ConstantRight? {
      ParsedAlphabet(Right(s, k));
    }
    AlphabetFromOperands(sh, s, k);
  }

  /** A matched text is in the alphabet when the operands it parses are. */
  lemma AlphabetFromOperands(sh: Shape, s: string, k: nat)
    requires Fits(sh, s, k)
    requires !sh.ElementLeft? && !sh.ConstantLeft? ==> AllInAlphabet(Left(s, k))
    requires !sh.ElementRight? && !sh.ConstantRight? ==> AllInAlphabet(Right(s, k))
    ensures AllInAlphabet(s)
  {
    PatternOperandsInAlphabet(sh, s, k);
    AlphabetJoin(s, k);
  }

  /** The operands a matched pattern hands to `parseExpression` parse. */
  lemma OperandsParsed(s: string)
    requires ParseBinaryOperation(s).Ok?
    ensures FirstMatch(s, 0).Some?
    ensures var m := FirstMatch(s, 0).value;
            var sh, k := Shapes[m.0], m.1;
            Fits(sh, s, k) &&
            (!sh.ElementLeft? && !sh.ConstantLeft? ==> ParseExpression(Left(s, k)).Ok?) &&
            (!sh.ElementRight? && !sh.ConstantRight? ==> ParseExpression(Right(s, k)).Ok?)
  {
  }

  /** The operands a pattern takes verbatim are in the alphabet. */
  lemma PatternOperandsInAlphabet(sh: Shape, s: string, k: nat)
    requires Fits(sh, s, k)
    ensures sh.ElementLeft? ==> AllInAlphabet(Left(s, k))
    ensures sh.ElementRight? ==> AllInAlphabet(Right(s, k))
    ensures sh.ConstantLeft? || sh.BothConstants? ==> AllInAlphabet(Left(s, k))
    ensures sh.ConstantRight? || sh.BothConstants? ==> AllInAlphabet(Right(s, k))
  {
    match sh
    case ElementLeft =>
    case ElementRight =>
    case BothParenthesised =>
    case ConstantRight(sg) => ConstantInAlphabet(Right(s, k), sg);
    case ConstantLeft(sg) => ConstantInAlphabet(Left(s, k), sg);
    case BothConstants(sgL, sgR) =>
      ConstantInAlphabet(Left(s, k), sgL);
      ConstantInAlphabet(Right(s, k), sgR);
  }

  /** Text that is neither `element`, nor a constant, nor wrapped in
      parentheses, or that holds a space or an unknown operator, is rejected. */
  lemma ParseRejects(s: string)
    ensures !(s == "element" || IsConstantLiteral(s) || (|s| >= 2 && s[0] == '(' && s[|s| - 1] == ')')) ==>
              ParseExpression(s) == Err(ParseError)
    ensures (exists i :: 0 <= i < |s| && !InAlphabet(s[i])) ==> ParseExpression(s).Err?
  {
    if ParseExpression(s).Ok? {
      ParsedAlphabet(s);
    }
  }

  /** `-?\d+` is parsed as a constant that keeps its text, leading zeros included. */
  lemma ParseConstant(s: string)
    requires IsConstantLiteral(s)
    ensures ParseExpression(s) == Ok(Const(s))
    ensures NumeralValue(s).Ok?
  {
  }

  // ---------------------------------------------------------------------
  // Steps and chains

  /** Printing a parsed step gives back its text. */
  lemma ParseCallRoundTrip(c: string)
    requires ParseCall(c).Ok?
    ensures CallToString(ParseCall(c).value) == c
  {
    if StartsWith(c, "map{") && EndsWithBrace(c) {
      WrappedText(c, "map{");
      ParseRoundTrip(c[4..|c| - 1]);
    } else {
      WrappedText(c, "filter{");
      ParseRoundTrip(c[7..|c| - 1]);
    }
  }

  /** The body between `map{`/`filter{` and the closing brace is parsed as an
      expression: a map takes any expression, Bool or Num, and a filter only
      a Bool one; a parse failure is the step's failure. */
  lemma ParseCallWrapped(t: string)
    ensures ParseCall("map{" + t + "}") ==
              if ParseExpression(t).Ok? then Ok(MapCall(ParseExpression(t).value))
              else Err(ParseExpression(t).error)
    ensures ParseExpression(t).Ok? && IsBool(ParseExpression(t).value) ==>
              ParseCall("filter{" + t + "}") == Ok(FilterCall(ParseExpression(t).value))
    ensures ParseExpression(t).Err? ==> ParseCall("filter{" + t + "}") == Err(ParseExpression(t).error)
  {
    var m := "map{" + t + "}";
    assert m[..4] == "map{" && m[4..|m| - 1] == t;
    var f := "filter{" + t + "}";
    assert f[..4] != "map{" by {
      assert f[..4][0] == 'f';
    }
    assert f[..7] == "filter{" && f[7..|f| - 1] == t;
  }

  /** A filter whose body is a Num expression, such as `filter{(element+10)}`,
      is a type failure. */
  lemma FilterNumRejected(t: string)
    requires ParseExpression(t).Ok? && IsNum(ParseExpression(t).value)
    ensures ParseCall("filter{" + t + "}") == Err(TypeError)
  {
    var f := "filter{" + t + "}";
    assert f[..4] != "map{" by {
      assert f[..4][0] == 'f';
    }
    assert f[..7] == "filter{" && f[7..|f| - 1] == t;
  }

  /** Text that is neither `map{…}` nor `filter{…}` is a parse failure. */
  lemma NotAStepRejected(c: string)
    requires !EndsWithBrace(c) || (!StartsWith(c, "map{") && !StartsWith(c, "filter{"))
    ensures ParseCall(c) == Err(ParseError)
  {
  }

  /** A text that starts with `prefix` and ends with a brace is the prefix,
      the text between them and the brace. */
  lemma WrappedText(c: string, prefix: string)
    requires StartsWith(c, prefix) && EndsWithBrace(c) && |prefix| < |c|
    ensures c == prefix + c[|prefix|..|c| - 1] + "}"
  {
    assert c == c[..|prefix|] + c[|prefix|..|c| - 1] + c[|c| - 1..];
  }

  /** Printing the parsed steps gives back the pieces. */
  lemma {:induction false} ParseCallsRoundTrip(pieces: seq<string>)
    requires ParseCalls(pieces).Ok?
    ensures PrintCalls(ParseCalls(pieces).value) == pieces
  {
    if |pieces| > 0 {
      ParseCallRoundTrip(pieces[0]);
      ParseCallsRoundTrip(pieces[1..]);
      var calls := ParseCalls(pieces).value;
      assert calls[1..] == ParseCalls(pieces[1..]).value;
    }
  }

  /** Joining the pieces of a split gives back the text. */
  lemma {:induction false} JoinSplit(s: string, sep: string)
    requires |sep| > 0
    ensures Join(Split(s, sep), sep) == s
    decreases |s|
  {
    match IndexOf(s, sep, 0)
    case None =>
    case Some(i) =>
      var rest := s[i + |sep|..];
      var pieces := Split(s, sep);
      JoinSplit(rest, sep);
      assert pieces[0] == s[..i] && pieces[1..] == Split(rest, sep);
      assert s == s[..i] + s[i..i + |sep|] + rest;
  }

  /** Printing a parsed chain gives back its text, and there is one step per
      piece between separators. */
  lemma ParseCallChainRoundTrip(s: string)
    requires ParseCallChain(s).Ok?
    ensures |ParseCallChain(s).value.calls| == |Split(s, Separator)|
    ensures PrintableCalls(ParseCallChain(s).value.calls)
    ensures ChainToString(ParseCallChain(s).value) == s
  {
    ParseCallsRoundTrip(Split(s, Separator));
    JoinSplit(s, Separator);
  }

  /** A parsed chain meets what reordering needs to compute the same result. */
  lemma ParsedChainWellTyped(s: string)
    requires ParseCallChain(s).Ok?
    ensures WellTypedCalls(ParseCallChain(s).value.calls)
  {
  }

  /** A constant-right text whose constant is empty. */
  const EmptyRight := "((element+element)+)"

  /** The operand of `EmptyRight`, matched by the element-left pattern. */
  const SumText := "(element+element)"

  lemma SumParts()
    ensures Left(SumText, 8) == "element" && Right(SumText, 8) == "element" && SumText[8..9] == "+"
  {
    assert SumText == "(" + "element" + "+" + "element" + ")";
  }

  lemma SumMatch()
    ensures FirstMatch(SumText, 0) == Some((0, 8))
  {
    SumParts();
    assert Shapes[0] == ElementLeft;
    assert Fits(Shapes[0], SumText, 8);
    forall k | 8 < k < |SumText|
      ensures !Fits(Shapes[0], SumText, k)
    {
      if k <= |SumText| - 2 {
        assert |Left(SumText, k)| == k - 1;
      }
    }
    FirstMatchIs(SumText, 0, 8);
  }

  lemma EmptyRightOps(k: nat)
    requires 1 <= k <= 18 && k != 9 && k != 18
    ensures !IsOpChar(EmptyRight[k])
  {
  }

  /** None of the first four patterns matches `EmptyRight`. */
  lemma EarlyShapesMiss(i: nat, k: nat)
    requires i < 4
    ensures !Fits(Shapes[i], EmptyRight, k)
  {
    var s := EmptyRight;
    if k == 9 {
      EmptyRightInnerSplit();
    } else if k == 18 {
      EmptyRightParts();
    } else if 1 <= k <= 18 {
      EmptyRightOps(k);
    }
  }

  /** The first matching pattern is i at operator index k when it fits
      there, no earlier pattern fits anywhere and it fits at no larger index. */
  lemma FirstMatchIs(s: string, i: nat, k: nat)
    requires i < |Shapes| && Fits(Shapes[i], s, k)
    requires forall j, k' :: 0 <= j < i && 0 <= k' < |s| ==> !Fits(Shapes[j], s, k')
    requires forall k' :: k < k' < |s| ==> !Fits(Shapes[i], s, k')
    ensures FirstMatch(s, 0) == Some((i, k))
  {
    var m := FirstMatch(s, 0);
    assert k < |s|;
    assert m.Some?;
    var (i', k') := m.value;
    assert Fits(Shapes[i'], s, k') && k' < |s|;
    assert i' == i;
    assert k' == k;
  }

  lemma EmptyRightMatch()
    ensures FirstMatch(EmptyRight, 0) == Some((4, 18))
  {
    var s := EmptyRight;
    EmptyRightParts();
    assert Fits(Shapes[4], s, 18);
    forall j, k' | 0 <= j < 4 && 0 <= k' < |s|
      ensures !Fits(Shapes[j], s, k')
    {
      EarlyShapesMiss(j, k');
    }
    FirstMatchIs(s, 4, 18);
  }

  lemma SumParses()
    ensures ParseExpression(SumText) == Ok(Bin(Add, Element, Element))
  {
    SumMatch();
    assert SumText != "element" && !IsConstantLiteral(SumText) by {
      assert !IsDigit(SumText[0]);
    }
    SumParts();
  }

  /** What the constant-right pattern builds from an addition. */
  lemma ConstantRightAddition(s: string, k: nat, le: Expr)
    requires FirstMatch(s, 0) == Some((4, k))
    requires ParseExpression(Left(s, k)) == Ok(le) && IsNum(le) && s[k..k + 1] == "+"
    ensures ParseBinaryOperation(s) == Ok(Bin(Add, le, Const(Right(s, k))))
  {
    assert Shapes[4] == ConstantRight(false);
  }

  lemma EmptyRightParts()
    ensures Left(EmptyRight, 18) == SumText && Right(EmptyRight, 18) == "" && EmptyRight[18..19] == "+"
  {
  }

  lemma EmptyRightInnerSplit()
    ensures Left(EmptyRight, 9) == "(element" && Right(EmptyRight, 9) == "element)+"
  {
  }

  lemma EmptyRightParses()
    ensures ParseBinaryOperation(EmptyRight) == Ok(Bin(Add, Bin(Add, Element, Element), Const("")))
  {
    SumParses();
    EmptyRightMatch();
    EmptyRightParts();
    ConstantRightAddition(EmptyRight, 18, Bin(Add, Element, Element));
  }

  /** The constant patterns take their operand without checking that it has
      a digit: `((element+element)+)` parses, with an empty constant that has
      no value. */
  lemma EmptyConstantAccepted()
    ensures ParseExpression(EmptyRight) == Ok(Bin(Add, Bin(Add, Element, Element), Const("")))
    ensures ToPolynomial(ParseExpression(EmptyRight).value) == Err(NumberFormat)
  {
    EmptyRightParses();
    assert EmptyRight != "element" && !IsConstantLiteral(EmptyRight) by {
      assert !IsDigit(EmptyRight[0]);
    }
    ToPolynomialLeaves("");
  }
}
