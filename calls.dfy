/** The two kinds of pipeline step and their printed form. */
module Calls {
  import opened Expressions

  /** A `map{e}` step replaces the value by e; a `filter{c}` step drops the
      value unless c holds. The source types a filter's condition as Bool;
      here that is the predicate `FiltersAreBool` on a chain. */
  datatype Call = MapCall(expression: Expr) | FilterCall(condition: Expr) {
    /** The expression the step carries. */
    function Body(): Expr {
      match this
      case MapCall(e) => e
      case FilterCall(c) => c
    }
  }

  /** `toString`: the step's keyword and its expression in braces. */
  function CallToString(c: Call): string
    requires NoAtoms(c.Body())
  {
    match c
    case MapCall(e) => "map{" + ToString(e) + "}"
    case FilterCall(b) => "filter{" + ToString(b) + "}"
  }
}
