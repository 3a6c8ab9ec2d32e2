/** The operator enumerations of the filter language. */
module Enums {

  /** The four arithmetic operators a binary sub-expression applies to its two keys. */
  datatype ArithmeticOp = Add | Subtract | Multiply | Divide

  /** The six comparison operators. */
  datatype ComparisonOp = Equal | NotEqual | GreaterThan | LessThan | GreaterEqual | LessEqual {

    /** True for the four operators that need an ordering rather than equality alone. */
    predicate IsOrdering() {
      !Equal? && !NotEqual?
    }
  }

  /** The tag that says how a sub-expression is folded into the running result.
      `Not` is a member of the enumeration, but no part of the evaluator accepts it. */
  datatype LogicalOp = And | Or | Not | None
}
