/** A chain of steps, its printed form, what it computes, and the reordering
    that fuses every map into one and pushes every filter in front of it. */
module CallChains {
  import opened Outcomes
  import opened Expressions
  import opened ExpressionUtils
  import opened Simplifier
  import opened Calls

  datatype CallChain = CallChain(calls: seq<Call>)

  const Separator: string := "%>%"

  /** `joinToString`: the pieces with the separator between neighbours. */
  function Join(pieces: seq<string>, sep: string): string {
    if |pieces| == 0 then ""
    else if |pieces| == 1 then pieces[0]
    else pieces[0] + sep + Join(pieces[1..], sep)
  }

  predicate PrintableCalls(calls: seq<Call>) {
    forall i :: 0 <= i < |calls| ==> NoAtoms(calls[i].Body())
  }

  /** Each step printed on its own. */
  function PrintCalls(calls: seq<Call>): (r: seq<string>)
    requires PrintableCalls(calls)
    ensures |r| == |calls|
  {
    if |calls| == 0 then [] else [CallToString(calls[0])] + PrintCalls(calls[1..])
  }

  /** `CallChain.toString`. */
  function ChainToString(chain: CallChain): string
    requires PrintableCalls(chain.calls)
  {
    Join(PrintCalls(chain.calls), Separator)
  }

  // ---------------------------------------------------------------------
  // What a chain computes

  /** Every filter condition is Bool, as the source's types demand. */
  predicate FiltersAreBool(calls: seq<Call>) {
    forall i :: 0 <= i < |calls| ==> calls[i].FilterCall? ==> IsBool(calls[i].condition)
  }

  /** Every expression is well typed and every filter condition is Bool. */
  predicate WellTypedCalls(calls: seq<Call>) {
    FiltersAreBool(calls) && forall i :: 0 <= i < |calls| ==> WellTyped(calls[i].Body())
  }

  /** What the parser produces from a chain that type-checks: no atoms, and
      the maps are Num. */
  predicate ComposableCalls(calls: seq<Call>) {
    WellTypedCalls(calls) &&
    forall i :: 0 <= i < |calls| ==> NoAtoms(calls[i].Body()) && (calls[i].MapCall? ==> IsNum(calls[i].expression))
  }

  /** The chain applied to x: `None` when a filter drops the value. */
  function Run(calls: seq<Call>, x: int): Option<int> {
    if |calls| == 0 then Some(x)
    else
      match Run(calls[..|calls| - 1], x)
      case None => None
      case Some(v) =>
        match calls[|calls| - 1]
        case MapCall(e) => Some(EvalNum(e, v))
        case FilterCall(c) => if EvalBool(c, v) then Some(v) else None
  }

  /** The map expressions in order (`filterIsInstance<MapCall>`). */
  function MapExprs(calls: seq<Call>): (r: seq<Expr>)
    ensures |r| <= |calls|
  {
    if |calls| == 0 then []
    else
      var last := calls[|calls| - 1];
      MapExprs(calls[..|calls| - 1]) + (if last.MapCall? then [last.expression] else [])
  }

  /** The maps applied to x in order. */
  function ApplyMaps(ms: seq<Expr>, x: int): int {
    if |ms| == 0 then x else EvalNum(ms[|ms| - 1], ApplyMaps(ms[..|ms| - 1], x))
  }

  // ---------------------------------------------------------------------
  // The reordering, as functions over prefixes

  /** `mapCompositions`: entry i is map i composed with entry i - 1. */
  function Fused(ms: seq<Expr>): (r: Result<seq<Expr>>)
    ensures r.Ok? ==> |r.value| == |ms|
  {
    if |ms| == 0 then Ok([])
    else if |ms| == 1 then Ok([ms[0]])
    else
      var prev :- Fused(ms[..|ms| - 1]);
      var c :- Compose(ms[|ms| - 1], prev[|prev| - 1]);
      Ok(prev + [c])
  }

  /** The map expressions of a prefix are a prefix of the map expressions. */
  lemma {:induction false} MapExprsPrefix(calls: seq<Call>, k: nat)
    requires k <= |calls|
    ensures |MapExprs(calls[..k])| <= |MapExprs(calls)|
    ensures MapExprs(calls[..k]) == MapExprs(calls)[..|MapExprs(calls[..k])|]
    decreases |calls| - k
  {
    if k < |calls| {
      var front := calls[..|calls| - 1];
      assert front[..k] == calls[..k];
      MapExprsPrefix(front, k);
    } else {
      assert calls[..k] == calls;
    }
  }

  /** The filter condition after the first k steps: each filter is composed
      with the fusion of the maps before it, and conjoined on the right. */
  function Condition(calls: seq<Call>, comps: seq<Expr>, k: nat): Result<Option<Expr>>
    requires k <= |calls| && |comps| == |MapExprs(calls)|
  {
    if k == 0 then Ok(None)
    else
      var acc :- Condition(calls, comps, k - 1);
      match calls[k - 1]
      case MapCall(_) => Ok(acc)
      case FilterCall(_) =>
        var func :- Rewritten(calls, comps, k - 1);
        Ok(Some(Conjoin(acc, func)))
  }

  /** Filter k composed with the fusion of the maps before it (itself when
      there is none). */
  function Rewritten(calls: seq<Call>, comps: seq<Expr>, k: nat): Result<Expr>
    requires k < |calls| && calls[k].FilterCall? && |comps| == |MapExprs(calls)|
  {
    MapExprsPrefix(calls, k);
    var n := |MapExprs(calls[..k])|;
    if n == 0 then Ok(calls[k].condition) else Compose(calls[k].condition, comps[n - 1])
  }

  /** The condition so far with one more conjunct on the right. */
  function Conjoin(acc: Option<Expr>, func: Expr): Expr {
    match acc
    case None => func
    case Some(f) => Bin(Conj, f, func)
  }

  /** How many maps precede step k, and that a map step adds one. */
  lemma MapsBeforeStep(calls: seq<Call>, k: nat)
    requires k < |calls|
    ensures MapExprs(calls[..k + 1]) == MapExprs(calls[..k]) + (if calls[k].MapCall? then [calls[k].expression] else [])
    ensures |MapExprs(calls[..k])| <= |MapExprs(calls)|
  {
    assert calls[..k + 1][..k] == calls[..k];
    MapExprsPrefix(calls, k);
  }

  /** A map step leaves the condition as it is. */
  lemma ConditionMapStep(calls: seq<Call>, comps: seq<Expr>, k: nat)
    requires k < |calls| && |comps| == |MapExprs(calls)| && calls[k].MapCall?
    ensures Condition(calls, comps, k + 1) == Condition(calls, comps, k)
  {
  }

  /** A filter step conjoins the rewritten condition, or fails as its rewriting does. */
  lemma ConditionFilterStep(calls: seq<Call>, comps: seq<Expr>, k: nat, acc: Option<Expr>)
    requires k < |calls| && |comps| == |MapExprs(calls)| && calls[k].FilterCall?
    requires Condition(calls, comps, k) == Ok(acc)
    ensures var func := Rewritten(calls, comps, k);
            (func.Err? ==> Condition(calls, comps, k + 1) == Err(func.error)) &&
            (func.Ok? ==> Condition(calls, comps, k + 1) == Ok(Some(Conjoin(acc, func.value))))
  {
  }

  /** `reordered()`: one filter (TRUE when there is none) followed by one
      map (`element` when there is none). */
  function Reorder(chain: CallChain): Result<CallChain> {
    var comps :- Fused(MapExprs(chain.calls));
    var cond :- Condition(chain.calls, comps, |chain.calls|);
    Ok(CallChain([FilterCall(cond.GetOr(TRUE)), MapCall(if |comps| == 0 then Element else comps[|comps| - 1])]))
  }

  /** The variant the tests describe: the reordered filter is also simplified
      (with the corrected simplifier). */
  function ReorderSimplified(chain: CallChain): Result<CallChain>
    requires WellTypedCalls(chain.calls)
  {
    var out :- Reorder(chain);
    ReorderTyped(chain);
    var f :- Simplify(out.calls[0].condition, false);
    Ok(CallChain([FilterCall(f), out.calls[1]]))
  }

  // ---------------------------------------------------------------------
  // The reordering as the source performs it

  /** A failure in fusing a prefix of the maps is the failure of the whole fusion. */
  lemma {:induction false} FusedFailureStays(ms: seq<Expr>, i: nat)
    requires i <= |ms| && Fused(ms[..i]).Err?
    ensures Fused(ms) == Fused(ms[..i])
    decreases |ms| - i
  {
    if i < |ms| {
      var front := ms[..|ms| - 1];
      assert front[..i] == ms[..i];
      FusedFailureStays(front, i);
    } else {
      assert ms[..i] == ms;
    }
  }

  /** The index in `comps` of the last map among the first k steps. */
  function LastMap(calls: seq<Call>, comps: seq<Expr>, k: nat): (r: Option<nat>)
    requires k <= |calls| && |comps| == |MapExprs(calls)|
    ensures r.Some? ==> r.value < |comps|
  {
    MapExprsPrefix(calls, k);
    var n := |MapExprs(calls[..k])|;
    if n == 0 then None else Some(n - 1)
  }

  /** A map step moves the last map on by one; a filter is rewritten with
      the last map. */
  lemma LastMapStep(calls: seq<Call>, comps: seq<Expr>, k: nat)
    requires k < |calls| && |comps| == |MapExprs(calls)|
    ensures var last := LastMap(calls, comps, k);
            LastMap(calls, comps, k + 1) ==
              if calls[k].FilterCall? then last else if last.Some? then Some(last.value + 1) else Some(0)
    ensures calls[k].FilterCall? ==>
              var cond := calls[k].condition;
              var last := LastMap(calls, comps, k);
              Rewritten(calls, comps, k) == if last.Some? then Compose(cond, comps[last.value]) else Ok(cond)
  {
    MapsBeforeStep(calls, k);
  }

  /** A failed condition stays failed, with the same error, one step on. */
  lemma ConditionErrorStep(calls: seq<Call>, comps: seq<Expr>, k: nat)
    requires k < |calls| && |comps| == |MapExprs(calls)|
    requires Condition(calls, comps, k).Err?
    ensures Condition(calls, comps, k + 1) == Condition(calls, comps, k)
  {
  }

  /** A filter step of the second loop: the rewritten filter is Bool, and
      either it is conjoined or its failure is the failure of the whole
      condition. */
  lemma PushFilterStep(calls: seq<Call>, comps: seq<Expr>, k: nat, acc: Option<Expr>)
    requires FiltersAreBool(calls) && k < |calls| && |comps| == |MapExprs(calls)| && calls[k].FilterCall?
    requires Condition(calls, comps, k) == Ok(acc)
    ensures var func := Rewritten(calls, comps, k);
            (func.Err? ==> Condition(calls, comps, |calls|) == Err(func.error)) &&
            (func.Ok? ==> IsBool(func.value) && Condition(calls, comps, k + 1) == Ok(Some(Conjoin(acc, func.value))))
  {
    ConditionFilterStep(calls, comps, k, acc);
    var func := Rewritten(calls, comps, k);
    if func.Err? {
      ConditionFailureStays(calls, comps, k + 1, func.error);
    } else {
      MapExprsPrefix(calls, k);
      var n := |MapExprs(calls[..k])|;
      assert IsBool(calls[k].condition);
      if n > 0 {
        ComposeKeepsCapability(calls[k].condition, comps[n - 1]);
      }
    }
  }

  /** A failure in the condition of a prefix is the failure of the whole condition. */
  lemma {:induction false} ConditionFailureStays(calls: seq<Call>, comps: seq<Expr>, k: nat, e: Error)
    requires k <= |calls| && |comps| == |MapExprs(calls)|
    requires Condition(calls, comps, k) == Err(e)
    ensures Condition(calls, comps, |calls|) == Err(e)
    decreases |calls| - k
  {
    if k < |calls| {
      ConditionErrorStep(calls, comps, k);
      ConditionFailureStays(calls, comps, k + 1, e);
    }
  }


  /** The first loop of `reordered()`: the map compositions, built in a list. */
  method FuseMaps(maps: seq<Expr>) returns (r: Result<seq<Expr>>)
    ensures r == Fused(maps)
  {
    var comps: seq<Expr> := if |maps| > 0 then [maps[0]] else [];
    var i := 1;
    while i < |maps|
      invariant |maps| == 0 ==> comps == []
      invariant |maps| > 0 ==> i <= |maps| && Fused(maps[..i]) == Ok(comps)
    {
      assert maps[..i + 1][..i] == maps[..i];
      var c := Compose(maps[i], comps[|comps| - 1]);
      if c.Err? {
        FusedFailureStays(maps, i + 1);
        return Err(c.error);
      }
      comps := comps + [c.value];
      i := i + 1;
    }
    if |maps| > 0 {
      assert maps[..i] == maps;
    }
    r := Ok(comps);
  }

  /** The second loop of `reordered()`: one pass over the steps that tracks
      the index of the last map seen, rewrites each filter and conjoins it.
      The `TODO` branch for a rewritten condition that is not Bool is
      unreachable. */
  method PushFilters(calls: seq<Call>, comps: seq<Expr>) returns (r: Result<Option<Expr>>)
    requires FiltersAreBool(calls) && |comps| == |MapExprs(calls)|
    ensures r == Condition(calls, comps, |calls|)
  {
    var filterExpr: Option<Expr> := None;
    var currMap: Option<nat> := None;
    for k := 0 to |calls|
      invariant Condition(calls, comps, k) == Ok(filterExpr)
      invariant currMap == LastMap(calls, comps, k)
    {
      LastMapStep(calls, comps, k);
      if calls[k].FilterCall? {
        var cond := calls[k].condition;
        var rewritten := if currMap.Some? then Compose(cond, comps[currMap.value]) else Ok(cond);
        PushFilterStep(calls, comps, k, filterExpr);
        if rewritten.Err? {
          return Err(rewritten.error);
        }
        var func := rewritten.value;
        if !IsBool(func) {
          assert false;
        }
        filterExpr := if filterExpr.Some? then Some(Bin(Conj, filterExpr.value, func)) else Some(func);
      } else {
        ConditionMapStep(calls, comps, k);
        currMap := if currMap.Some? then Some(currMap.value + 1) else Some(0);
      }
    }
    r := Ok(filterExpr);
  }

  /** `reordered()`: fuse the maps, push the filters, and return one filter
      (TRUE when there is none) followed by one map (`element` when there is
      none). */
  method Reordered(chain: CallChain) returns (r: Result<CallChain>)
    requires FiltersAreBool(chain.calls)
    ensures r == Reorder(chain)
  {
    var fused := FuseMaps(MapExprs(chain.calls));
    if fused.Err? {
      return Err(fused.error);
    }
    var comps := fused.value;
    var pushed := PushFilters(chain.calls, comps);
    if pushed.Err? {
      return Err(pushed.error);
    }
    var filterExpr := pushed.value;
    r := Ok(CallChain([FilterCall(filterExpr.GetOr(TRUE)), MapCall(if |comps| > 0 then comps[|comps| - 1] else Element)]));
  }

  // ---------------------------------------------------------------------
  // Properties of the reordering

  /** A map step may hold a Bool expression; fusing it into a later map that
      uses `element` as a number fails with a type error. */
  lemma BoolMapRejected(m: Expr, op: Op, r: Expr)
    requires IsBool(m) && !op.IsLogical() && Compose(r, m).Ok?
    ensures Reorder(CallChain([MapCall(m), MapCall(Bin(op, Element, r))])) == Err(TypeError)
  {
    var calls := [MapCall(m), MapCall(Bin(op, Element, r))];
    assert calls[..1] == [MapCall(m)];
    var ms := [m, Bin(op, Element, r)];
    assert MapExprs(calls) == ms;
    assert ms[..1] == [m];
    ComposeBoolSubstitute(op, Element, r, m);
    assert Fused(ms) == Err(TypeError);
  }

  /** The empty chain reorders to `filter{TRUE}%>%map{element}`. */
  lemma ReorderEmpty()
    ensures Reorder(CallChain([])) == Ok(CallChain([FilterCall(TRUE), MapCall(Element)]))
  {
  }

  /** The result is one filter then one map; the filter is TRUE when there
      are no filters, and the map is `element` when there are no maps. */
  lemma ReorderShape(chain: CallChain)
    requires Reorder(chain).Ok?
    ensures var out := Reorder(chain).value.calls;
            |out| == 2 && out[0].FilterCall? && out[1].MapCall?
    ensures MapExprs(chain.calls) == [] ==> Reorder(chain).value.calls[1] == MapCall(Element)
    ensures (forall i :: 0 <= i < |chain.calls| ==> chain.calls[i].MapCall?) ==>
              Reorder(chain).value.calls[0] == FilterCall(TRUE)
  {
    var calls := chain.calls;
    var comps := Fused(MapExprs(calls)).value;
    if forall i :: 0 <= i < |calls| ==> calls[i].MapCall? {
      NoFilterNoCondition(calls, comps, |calls|);
    }
  }

  lemma {:induction false} NoFilterNoCondition(calls: seq<Call>, comps: seq<Expr>, k: nat)
    requires k <= |calls| && |comps| == |MapExprs(calls)|
    requires forall i :: 0 <= i < |calls| ==> calls[i].MapCall?
    ensures Condition(calls, comps, k) == Ok(None)
  {
    if k > 0 {
      NoFilterNoCondition(calls, comps, k - 1);
    }
  }

  /** Each fused map applies the original maps up to it, in order. */
  lemma {:induction false} FusedEval(ms: seq<Expr>, x: int)
    requires forall i :: 0 <= i < |ms| ==> WellTyped(ms[i])
    requires Fused(ms).Ok?
    ensures forall j :: 0 <= j < |ms| ==> EvalNum(Fused(ms).value[j], x) == ApplyMaps(ms[..j + 1], x)
  {
    if |ms| == 1 {
      assert ms[..1][..0] == [];
    } else if |ms| > 1 {
      var front := ms[..|ms| - 1];
      FusedEval(front, x);
      var prev := Fused(front).value;
      ComposeEval(ms[|ms| - 1], prev[|prev| - 1], x);
      forall j | 0 <= j < |ms|
        ensures EvalNum(Fused(ms).value[j], x) == ApplyMaps(ms[..j + 1], x)
      {
        if j < |ms| - 1 {
          assert front[..j + 1] == ms[..j + 1];
        } else {
          assert ms[..j + 1][..j] == front[..|front| - 1 + 1];
          assert ms[..j + 1] == ms;
        }
      }
    }
  }

  /** After the first k steps, the condition built so far holds exactly when
      the value survives them, and the surviving value is the maps so far
      applied in order. */
  predicate PrefixAgrees(calls: seq<Call>, comps: seq<Expr>, k: nat, x: int)
    requires k <= |calls| && |comps| == |MapExprs(calls)| && Condition(calls, comps, k).Ok?
  {
    var cond := Condition(calls, comps, k).value;
    (Run(calls[..k], x).Some? <==> (cond.None? || EvalBool(cond.value, x))) &&
    (Run(calls[..k], x).Some? ==> Run(calls[..k], x).value == ApplyMaps(MapExprs(calls[..k]), x))
  }

  lemma {:induction false} ConditionEval(calls: seq<Call>, comps: seq<Expr>, k: nat, x: int)
    requires WellTypedCalls(calls)
    requires Fused(MapExprs(calls)) == Ok(comps)
    requires k <= |calls| && Condition(calls, comps, k).Ok?
    ensures PrefixAgrees(calls, comps, k, x)
  {
    if k > 0 {
      ConditionEval(calls, comps, k - 1, x);
      if calls[k - 1].MapCall? {
        MapStepAgrees(calls, comps, k, x);
      } else {
        FilterStepAgrees(calls, comps, k, x);
      }
    }
  }

  /** A map step keeps the condition and applies one more map. */
  lemma MapStepAgrees(calls: seq<Call>, comps: seq<Expr>, k: nat, x: int)
    requires 0 < k <= |calls| && |comps| == |MapExprs(calls)| && calls[k - 1].MapCall?
    requires Condition(calls, comps, k).Ok? && PrefixAgrees(calls, comps, k - 1, x)
    ensures PrefixAgrees(calls, comps, k, x)
  {
    assert calls[..k][..k - 1] == calls[..k - 1];
    var ms := MapExprs(calls[..k]);
    assert ms[..|ms| - 1] == MapExprs(calls[..k - 1]);
  }

  /** A filter step conjoins its rewritten condition, which holds exactly
      when the original condition holds of the value that reaches it. */
  lemma FilterStepAgrees(calls: seq<Call>, comps: seq<Expr>, k: nat, x: int)
    requires WellTypedCalls(calls) && Fused(MapExprs(calls)) == Ok(comps)
    requires 0 < k <= |calls| && calls[k - 1].FilterCall?
    requires Condition(calls, comps, k).Ok? && PrefixAgrees(calls, comps, k - 1, x)
    ensures PrefixAgrees(calls, comps, k, x)
  {
    assert calls[..k][..k - 1] == calls[..k - 1];
    assert MapExprs(calls[..k]) == MapExprs(calls[..k - 1]);
    RewrittenEval(calls, comps, k - 1, x);
  }

  /** The rewritten filter holds at x exactly when the original filter holds
      of the maps before it applied to x. */
  lemma RewrittenEval(calls: seq<Call>, comps: seq<Expr>, k: nat, x: int)
    requires WellTypedCalls(calls) && Fused(MapExprs(calls)) == Ok(comps)
    requires k < |calls| && calls[k].FilterCall? && Rewritten(calls, comps, k).Ok?
    ensures EvalBool(Rewritten(calls, comps, k).value, x) ==
            EvalBool(calls[k].condition, ApplyMaps(MapExprs(calls[..k]), x))
  {
    MapExprsPrefix(calls, k);
    var n := |MapExprs(calls[..k])|;
    var maps := MapExprs(calls);
    var c := calls[k].condition;
    assert IsBool(c) && WellTyped(c) by {
      assert calls[k].Body() == c;
    }
    if n > 0 {
      forall i | 0 <= i < |maps|
        ensures WellTyped(maps[i])
      {
        MapsWellTyped(calls, i);
      }
      FusedEval(maps, x);
      assert maps[..n] == MapExprs(calls[..k]);
      ComposeEval(c, comps[n - 1], x);
    }
  }

  /** Every map expression of well-typed steps is well typed. */
  lemma {:induction false} MapsWellTyped(calls: seq<Call>, i: nat)
    requires WellTypedCalls(calls) && i < |MapExprs(calls)|
    ensures WellTyped(MapExprs(calls)[i])
  {
    var front := calls[..|calls| - 1];
    var last := calls[|calls| - 1];
    assert WellTyped(last.Body());
    if i < |MapExprs(front)| {
      assert WellTypedCalls(front) by {
        assert forall j :: 0 <= j < |front| ==> front[j] == calls[j];
      }
      MapsWellTyped(front, i);
    }
  }

  /** The reordered chain computes what the original does: it keeps x
      exactly when the original keeps x, and then outputs the same value. */
  lemma ReorderSound(chain: CallChain, x: int)
    requires WellTypedCalls(chain.calls) && Reorder(chain).Ok?
    ensures var out := Reorder(chain).value.calls;
            Run(chain.calls, x).Some? <==> EvalBool(out[0].condition, x)
    ensures var out := Reorder(chain).value.calls;
            Run(chain.calls, x).Some? ==> Run(chain.calls, x).value == EvalNum(out[1].expression, x)
  {
    var calls := chain.calls;
    var maps := MapExprs(calls);
    var comps := Fused(maps).value;
    ConditionEval(calls, comps, |calls|, x);
    assert calls[..|calls|] == calls;
    assert PrefixAgrees(calls, comps, |calls|, x);
    SentinelsEval(x);
    if |comps| > 0 {
      forall i | 0 <= i < |maps|
        ensures WellTyped(maps[i])
      {
        MapsWellTyped(calls, i);
      }
      FusedEval(maps, x);
      assert maps[..|maps|] == maps;
    }
  }

  /** Fusing Num, well-typed maps without atoms never fails and gives Num,
      well-typed fusions without atoms. */
  lemma {:induction false} FusedTotal(ms: seq<Expr>)
    requires forall i :: 0 <= i < |ms| ==> IsNum(ms[i]) && WellTyped(ms[i]) && NoAtoms(ms[i])
    ensures Fused(ms).Ok?
    ensures forall j :: 0 <= j < |ms| ==> IsNum(Fused(ms).value[j]) && WellTyped(Fused(ms).value[j]) && NoAtoms(Fused(ms).value[j])
  {
    if |ms| > 1 {
      var front := ms[..|ms| - 1];
      FusedTotal(front);
      var prev := Fused(front).value;
      var m, s := ms[|ms| - 1], prev[|prev| - 1];
      ComposeTotal(m, s);
      ComposeKeepsCapability(m, s);
      ComposeWellTyped(m, s);
      ComposeNoAtoms(m, s);
    }
  }

  /** Composing trees without atoms gives a tree without atoms. */
  lemma {:induction false} ComposeNoAtoms(e: Expr, s: Expr)
    requires NoAtoms(e) && NoAtoms(s) && Compose(e, s).Ok?
    ensures NoAtoms(Compose(e, s).value)
  {
    match e
    case Element =>
    case Const(_) =>
    case Bin(op, l, r) =>
      ComposeNoAtoms(l, s);
      ComposeNoAtoms(r, s);
      OpNameRoundTrip(op);
  }

  /** On steps the parser produces from a type-correct chain, every prefix
      condition can be built. */
  lemma {:induction false} ConditionTotal(calls: seq<Call>, comps: seq<Expr>, k: nat)
    requires ComposableCalls(calls) && k <= |calls| && |comps| == |MapExprs(calls)|
    requires forall j :: 0 <= j < |comps| ==> IsNum(comps[j])
    ensures Condition(calls, comps, k).Ok?
  {
    if k > 0 {
      ConditionTotal(calls, comps, k - 1);
      if calls[k - 1].FilterCall? {
        RewrittenTotal(calls, comps, k - 1);
      }
    }
  }

  /** Rewriting a filter of parser-produced steps with Num fusions never fails. */
  lemma RewrittenTotal(calls: seq<Call>, comps: seq<Expr>, k: nat)
    requires ComposableCalls(calls) && k < |calls| && calls[k].FilterCall? && |comps| == |MapExprs(calls)|
    requires forall j :: 0 <= j < |comps| ==> IsNum(comps[j])
    ensures Rewritten(calls, comps, k).Ok?
  {
    var c := calls[k].condition;
    assert WellTyped(c) && NoAtoms(c) by {
      assert calls[k].Body() == c;
    }
    MapExprsPrefix(calls, k);
    var n := |MapExprs(calls[..k])|;
    if n > 0 {
      ComposeTotal(c, comps[n - 1]);
    }
  }

  /** Every map expression of parser-produced steps is Num, well typed and
      without atoms. */
  lemma {:induction false} MapsComposable(calls: seq<Call>, i: nat)
    requires ComposableCalls(calls) && i < |MapExprs(calls)|
    ensures IsNum(MapExprs(calls)[i]) && WellTyped(MapExprs(calls)[i]) && NoAtoms(MapExprs(calls)[i])
  {
    var front := calls[..|calls| - 1];
    var last := calls[|calls| - 1];
    assert WellTyped(last.Body()) && NoAtoms(last.Body());
    if i < |MapExprs(front)| {
      assert ComposableCalls(front) by {
        assert forall j :: 0 <= j < |front| ==> front[j] == calls[j];
      }
      MapsComposable(front, i);
    }
  }

  /** Reordering the steps the parser produces from a type-correct chain never fails. */
  lemma ReorderTotal(chain: CallChain)
    requires ComposableCalls(chain.calls)
    ensures Reorder(chain).Ok?
  {
    var calls := chain.calls;
    var maps := MapExprs(calls);
    forall i | 0 <= i < |maps|
      ensures IsNum(maps[i]) && WellTyped(maps[i]) && NoAtoms(maps[i])
    {
      MapsComposable(calls, i);
    }
    FusedTotal(maps);
    ConditionTotal(calls, Fused(maps).value, |calls|);
  }

  /** Fusing well-typed maps gives well-typed fusions. */
  lemma {:induction false} FusedWellTyped(ms: seq<Expr>)
    requires forall i :: 0 <= i < |ms| ==> WellTyped(ms[i])
    requires Fused(ms).Ok?
    ensures forall j :: 0 <= j < |ms| ==> WellTyped(Fused(ms).value[j])
  {
    if |ms| > 1 {
      var front := ms[..|ms| - 1];
      FusedWellTyped(front);
      var prev := Fused(front).value;
      ComposeWellTyped(ms[|ms| - 1], prev[|prev| - 1]);
    }
  }

  /** Each prefix condition of well-typed steps is Bool and well typed. */
  lemma {:induction false} ConditionTyped(calls: seq<Call>, comps: seq<Expr>, k: nat)
    requires WellTypedCalls(calls) && k <= |calls| && |comps| == |MapExprs(calls)|
    requires forall j :: 0 <= j < |comps| ==> WellTyped(comps[j])
    requires Condition(calls, comps, k).Ok? && Condition(calls, comps, k).value.Some?
    ensures IsBool(Condition(calls, comps, k).value.value) && WellTyped(Condition(calls, comps, k).value.value)
  {
    assert Condition(calls, comps, k - 1).Ok?;
    var acc := Condition(calls, comps, k - 1).value;
    if calls[k - 1].MapCall? {
      ConditionMapStep(calls, comps, k - 1);
      ConditionTyped(calls, comps, k - 1);
    } else {
      ConditionFilterStep(calls, comps, k - 1, acc);
      RewrittenTyped(calls, comps, k - 1);
      if acc.Some? {
        ConditionTyped(calls, comps, k - 1);
      }
    }
  }

  /** A rewritten filter of well-typed steps is Bool and well typed. */
  lemma RewrittenTyped(calls: seq<Call>, comps: seq<Expr>, k: nat)
    requires WellTypedCalls(calls) && k < |calls| && calls[k].FilterCall? && |comps| == |MapExprs(calls)|
    requires forall j :: 0 <= j < |comps| ==> WellTyped(comps[j])
    requires Rewritten(calls, comps, k).Ok?
    ensures IsBool(Rewritten(calls, comps, k).value) && WellTyped(Rewritten(calls, comps, k).value)
  {
    var c := calls[k].condition;
    assert IsBool(c) && WellTyped(c) by {
      assert calls[k].Body() == c;
    }
    MapExprsPrefix(calls, k);
    var n := |MapExprs(calls[..k])|;
    if n > 0 {
      ComposeKeepsCapability(c, comps[n - 1]);
      ComposeWellTyped(c, comps[n - 1]);
    }
  }

  /** The reordered filter of well-typed steps is a well-typed Bool expression. */
  lemma ReorderTyped(chain: CallChain)
    requires WellTypedCalls(chain.calls) && Reorder(chain).Ok?
    ensures IsBool(Reorder(chain).value.calls[0].condition)
    ensures WellTyped(Reorder(chain).value.calls[0].condition)
  {
    var calls := chain.calls;
    var maps := MapExprs(calls);
    forall i | 0 <= i < |maps|
      ensures WellTyped(maps[i])
    {
      MapsWellTyped(calls, i);
    }
    FusedWellTyped(maps);
    var comps := Fused(maps).value;
    if Condition(calls, comps, |calls|).value.Some? {
      ConditionTyped(calls, comps, |calls|);
    }
  }

  /** Simplifying the reordered filter with the corrected simplifier keeps
      the reordering's meaning. */
  lemma ReorderSimplifiedSound(chain: CallChain, x: int)
    requires WellTypedCalls(chain.calls) && ReorderSimplified(chain).Ok?
    ensures var out := ReorderSimplified(chain).value.calls;
            |out| == 2 && out[0].FilterCall? && out[1].MapCall? &&
            (Run(chain.calls, x).Some? <==> EvalBool(out[0].condition, x)) &&
            (Run(chain.calls, x).Some? ==> Run(chain.calls, x).value == EvalNum(out[1].expression, x))
  {
    ReorderSound(chain, x);
    ReorderTyped(chain);
    SimplifySound(Reorder(chain).value.calls[0].condition, false, x);
  }
}
