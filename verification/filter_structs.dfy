/** The condition tree handed to the compiler. */
module FilterStructs {
  import opened Enums
  import opened Values

  /** `key op value`: the key's value is the left operand, the literal the right one. */
  datatype UnaryExpression = UnaryExpression(op: ComparisonOp, key: string, value: Value)

  /** `(leftKey arithOp rightKey) compOp value`. Both `leftKey` and `rightKey` name keys of
      the record; neither is ever read as a constant. */
  datatype BinaryExpression = BinaryExpression(
    leftKey: string,
    arithOp: ArithmeticOp,
    rightKey: string,
    compOp: ComparisonOp,
    value: Value)

  /** Exactly one of the two expression forms. */
  datatype Expression = Unary(unary: UnaryExpression) | Binary(binary: BinaryExpression)

  /** An expression with the tag that says how to fold it into the result of everything
      before it. */
  datatype SubExpression = SubExpression(expr: Expression, prevLogicalOp: LogicalOp)

  /** An ordered sequence of sub-expressions, folded left to right without precedence. */
  datatype FilterCondition = FilterCondition(subExpressions: seq<SubExpression>)
}
