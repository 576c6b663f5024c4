/** The construction gate, which checks operand capabilities before building a
    binary node, and composition, which substitutes an expression for
    `element`. */
module ExpressionUtils {
  import opened Outcomes
  import opened Expressions

  /** The operator an operator token names, if any. */
  function OpOfToken(token: string): (r: Option<Op>)
    ensures r.Some? ==> r.value.Name() == token
  {
    if token == "+" then Some(Add)
    else if token == "-" then Some(Sub)
    else if token == "*" then Some(Mul)
    else if token == ">" then Some(Greater)
    else if token == "<" then Some(Less)
    else if token == "=" then Some(Equal)
    else if token == "&" then Some(Conj)
    else if token == "|" then Some(Disj)
    else None
  }

  /** The capability an operator demands of both of its operands. */
  predicate OperandsFit(op: Op, l: Expr, r: Expr) {
    if op.IsLogical() then IsBool(l) && IsBool(r) else IsNum(l) && IsNum(r)
  }

  /** `safeCreate`. */
  function SafeCreate(token: string, l: Expr, r: Expr): Result<Expr> {
    match OpOfToken(token)
    case None => Err(ParseError)
    case Some(op) => if OperandsFit(op, l, r) then Ok(Bin(op, l, r)) else Err(TypeError)
  }

  /** Every operator's own name is a token that maps back to it. */
  lemma OpNameRoundTrip(op: Op)
    ensures OpOfToken(op.Name()) == Some(op)
  {
  }

  /** An unknown token is a parse failure; a known one builds its node exactly
      when both operands have the capability it demands, and is a type failure
      otherwise. The node built is Num for `+ - *` and Bool for the others. */
  lemma SafeCreateCorrect(token: string, l: Expr, r: Expr)
    ensures SafeCreate(token, l, r) == Err(ParseError) <==> (forall op: Op :: op.Name() != token)
    ensures forall op: Op :: op.Name() == token ==>
              (OperandsFit(op, l, r) <==> SafeCreate(token, l, r) == Ok(Bin(op, l, r))) &&
              (!OperandsFit(op, l, r) <==> SafeCreate(token, l, r) == Err(TypeError))
    ensures SafeCreate(token, l, r).Ok? ==>
              var e := SafeCreate(token, l, r).value;
              (IsNum(e) <==> token in {"+", "-", "*"}) && (IsBool(e) <==> token in {">", "<", "=", "&", "|"})
  {
    forall op: Op | op.Name() == token
      ensures OpOfToken(token) == Some(op)
    {
      OpNameRoundTrip(op);
    }
  }

  /** `composition`: `element` is replaced by `s` and every composite node is
      rebuilt through the gate; the normalised atoms are not handled. */
  function Compose(e: Expr, s: Expr): Result<Expr> {
    match e
    case Element => Ok(s)
    case Const(_) => Ok(e)
    case Bin(op, l, r) =>
      var lc :- Compose(l, s);
      var rc :- Compose(r, s);
      SafeCreate(op.Name(), lc, rc)
    case _ => Err(AstError)
  }

  /** A Bool substitute for an `element` that an arithmetic operator or a
      comparison takes as either operand is a type failure. */
  lemma ComposeBoolSubstitute(op: Op, l: Expr, r: Expr, s: Expr)
    requires !op.IsLogical() && IsBool(s) && (l == Element || r == Element)
    requires Compose(l, s).Ok? && Compose(r, s).Ok?
    ensures Compose(Bin(op, l, r), s) == Err(TypeError)
  {
  }

  /** Composition keeps every composite node's operator, so a Bool stays Bool,
      and a Num stays Num when the substitute is Num. */
  lemma ComposeKeepsCapability(e: Expr, s: Expr)
    requires Compose(e, s).Ok?
    ensures e.Bin? ==> Compose(e, s).value.Bin? && Compose(e, s).value.op == e.op
    ensures IsBool(e) ==> IsBool(Compose(e, s).value)
    ensures IsNum(e) && IsNum(s) ==> IsNum(Compose(e, s).value)
  {
    if e.Bin? {
      OpNameRoundTrip(e.op);
    }
  }

  /** A well-typed substitute gives a well-typed result. */
  lemma {:induction false} ComposeWellTyped(e: Expr, s: Expr)
    requires WellTyped(s) && Compose(e, s).Ok?
    ensures WellTyped(Compose(e, s).value)
  {
    match e
    case Element =>
    case Const(_) =>
    case Bin(op, l, r) =>
      ComposeWellTyped(l, s);
      ComposeWellTyped(r, s);
      OpNameRoundTrip(op);
  }

  /** On a well-typed tree without atoms and a Num substitute, composition
      never fails. */
  lemma {:induction false} ComposeTotal(e: Expr, s: Expr)
    requires WellTyped(e) && NoAtoms(e) && IsNum(s)
    ensures Compose(e, s).Ok?
  {
    match e
    case Element =>
    case Const(_) =>
    case Bin(op, l, r) =>
      ComposeTotal(l, s);
      ComposeTotal(r, s);
      ComposeKeepsCapability(l, s);
      ComposeKeepsCapability(r, s);
      OpNameRoundTrip(op);
  }

  /** Evaluating the composition at x is evaluating the original at the
      substitute's value. */
  lemma {:induction false} ComposeEval(e: Expr, s: Expr, x: int)
    requires WellTyped(e) && Compose(e, s).Ok?
    ensures EvalNum(Compose(e, s).value, x) == EvalNum(e, EvalNum(s, x))
    ensures IsBool(e) ==> EvalBool(Compose(e, s).value, x) == EvalBool(e, EvalNum(s, x))
  {
    match e
    case Element =>
    case Const(_) =>
    case Bin(op, l, r) =>
      ComposeEval(l, s, x);
      ComposeEval(r, s, x);
      OpNameRoundTrip(op);
  }

  /** Substituting `element` for itself gives back the same tree. */
  lemma {:induction false} ComposeIdentity(e: Expr)
    requires WellTyped(e) && NoAtoms(e)
    ensures Compose(e, Element) == Ok(e)
  {
    match e
    case Element =>
    case Const(_) =>
    case Bin(op, l, r) =>
      ComposeIdentity(l);
      ComposeIdentity(r);
      OpNameRoundTrip(op);
  }
}
