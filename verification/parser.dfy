/** The evaluator: key resolution, arithmetic, comparison, and the compiled predicate that
    folds a condition's sub-expressions into one boolean. */
module Parser {
  import opened Enums
  import opened Errors
  import opened Values
  import opened FilterStructs
  import opened IntDivision
  import opened LexOrder

  // ---------------------------------------------------------------- key resolution

  /** `i` is the position of the first key in `keys` named `name`. */
  ghost predicate IsFirstMatch(keys: seq<Key>, name: string, i: nat) {
    && i < |keys|
    && keys[i].GetName() == name
    && forall j :: 0 <= j < i ==> keys[j].GetName() != name
  }

  /** Linear search from the front: the position of the first key named `name`, or `|keys|`
      when there is none. */
  function FindFirst(keys: seq<Key>, name: string): (i: nat)
    ensures i <= |keys|
    ensures i < |keys| ==> keys[i].GetName() == name
    ensures forall j :: 0 <= j < i ==> keys[j].GetName() != name
  {
    if |keys| == 0 then 0
    else if keys[0].GetName() == name then 0
    else 1 + FindFirst(keys[1..], name)
  }

  /** The value of the first key named exactly `name`; `KeyNotFound(name)` when no key has
      that name. Later keys with the same name are never seen. */
  function Lookup(keys: seq<Key>, name: string): (r: Result<Value>)
    ensures r.Err? <==> forall j :: 0 <= j < |keys| ==> keys[j].GetName() != name
    ensures r.Err? ==> r.error == KeyNotFound(name)
    ensures forall i: nat :: IsFirstMatch(keys, name, i) ==> r == Ok(keys[i].GetValue())
  {
    var i := FindFirst(keys, name);
    FirstMatchIsFound(keys, name);
    if i < |keys| then Ok(keys[i].GetValue()) else Err(KeyNotFound(name))
  }

  /** There is at most one first match, and the linear search finds it. */
  lemma FirstMatchIsFound(keys: seq<Key>, name: string)
    ensures forall i: nat :: IsFirstMatch(keys, name, i) ==> i == FindFirst(keys, name)
  {
    var f := FindFirst(keys, name);
    forall i: nat | IsFirstMatch(keys, name, i)
      ensures i == f
    {
      assert !(i < f) && !(f < i);
    }
  }

  // ---------------------------------------------------------------- arithmetic

  /** An exact integer result, or `Overflow` when it does not fit in 64 bits. */
  function CheckedInt(x: int): (r: Result<Value>)
    ensures r.Ok? <==> InInt64(x)
    ensures r.Ok? ==> r.value == Int(x)
    ensures r.Err? ==> r.error == Overflow
  {
    if InInt64(x) then Ok(Int(x)) else Err(Overflow)
  }

  /** Arithmetic in the 64-bit integer domain; division truncates toward zero. */
  function ArithmeticInt(l: Int64, op: ArithmeticOp, r: Int64): Result<Value> {
    match op
    case Add => CheckedInt(l + r)
    case Subtract => CheckedInt(l - r)
    case Multiply => CheckedInt(l * r)
    case Divide => if r == 0 then Err(DivisionByZero) else CheckedInt(TruncDiv(l, r))
  }

  /** Arithmetic in the floating-point domain; dividing by a value equal to 0.0 fails. */
  function ArithmeticFloat(fs: FloatSemantics, l: Double, op: ArithmeticOp, r: Double): Result<Value> {
    match op
    case Add => Ok(Float(fs.add(l, r)))
    case Subtract => Ok(Float(fs.sub(l, r)))
    case Multiply => Ok(Float(fs.mul(l, r)))
    case Divide => if fs.eq(r, fs.zero) then Err(DivisionByZero) else Ok(Float(fs.div(l, r)))
  }

  /** A numeric value as a double: integers are converted, doubles kept. */
  function ToDouble(fs: FloatSemantics, v: Value): Double
    requires v.IsNumeric()
  {
    if v.Int? then fs.fromInt(v.intVal) else v.floatVal
  }

  /** Two integers are combined as integers; two numbers of which at least one is a double
      are both promoted and combined as doubles; anything else is a type mismatch. */
  function Arithmetic(fs: FloatSemantics, left: Value, op: ArithmeticOp, right: Value): (r: Result<Value>)
    ensures r == Err(TypeMismatch) <==> !(left.IsNumeric() && right.IsNumeric())
    ensures r.Ok? && left.Int? && right.Int? ==> r.value.Int?
    ensures r.Ok? && !(left.Int? && right.Int?) ==> r.value.Float?
    ensures r.Err? ==> r.error in {TypeMismatch, DivisionByZero, Overflow}
    ensures r == Err(DivisionByZero) ==> op == Divide
    ensures r == Err(Overflow) ==> left.Int? && right.Int?
    ensures op == Divide && left.Int? && right == Int(0) ==> r == Err(DivisionByZero)
    ensures op == Divide && left.IsNumeric() && right.Float? && fs.eq(right.floatVal, fs.zero) ==>
              r == Err(DivisionByZero)
  {
    if left.Int? && right.Int? then
      ArithmeticInt(left.intVal, op, right.intVal)
    else if left.IsNumeric() && right.IsNumeric() then
      ArithmeticFloat(fs, ToDouble(fs, left), op, ToDouble(fs, right))
    else
      Err(TypeMismatch)
  }

  // ---------------------------------------------------------------- comparison

  function CompareInt(l: Int64, op: ComparisonOp, r: Int64): bool {
    match op
    case Equal => l == r
    case NotEqual => l != r
    case GreaterThan => l > r
    case LessThan => l < r
    case GreaterEqual => l >= r
    case LessEqual => l <= r
  }

  /** Floating-point comparison through the platform's `==`, `<` and `<=`; `l > r` is
      `r < l` and `l >= r` is `r <= l`. */
  function CompareFloat(fs: FloatSemantics, l: Double, op: ComparisonOp, r: Double): bool {
    match op
    case Equal => fs.eq(l, r)
    case NotEqual => !fs.eq(l, r)
    case GreaterThan => fs.lt(r, l)
    case LessThan => fs.lt(l, r)
    case GreaterEqual => fs.le(r, l)
    case LessEqual => fs.le(l, r)
  }

  /** String comparison: `>` is `<` swapped, and `>=`, `<=` are the negations of `<` and
      `>`, as the standard string operators define them. */
  function CompareText(l: string, op: ComparisonOp, r: string): bool {
    match op
    case Equal => l == r
    case NotEqual => l != r
    case GreaterThan => LexLess(r, l)
    case LessThan => LexLess(l, r)
    case GreaterEqual => !LexLess(l, r)
    case LessEqual => !LexLess(r, l)
  }

  /** Booleans support equality and inequality only. */
  function CompareBool(l: bool, op: ComparisonOp, r: bool): Result<bool> {
    match op
    case Equal => Ok(l == r)
    case NotEqual => Ok(l != r)
    case _ => Err(UnsupportedOp)
  }

  /** Operands of different variants never compare, whatever the operator; integers,
      doubles and strings support all six operators; booleans only equality and
      inequality. */
  function Compare(fs: FloatSemantics, left: Value, op: ComparisonOp, right: Value): (r: Result<bool>)
    ensures left.Index() != right.Index() ==> r == Err(TypeMismatch)
    ensures left.Index() == right.Index() ==> (r.Err? <==> left.Bool? && op.IsOrdering())
    ensures left.Index() == right.Index() && r.Err? ==> r.error == UnsupportedOp
  {
    match (left, right)
    case (Int(l), Int(r)) => Ok(CompareInt(l, op, r))
    case (Float(l), Float(r)) => Ok(CompareFloat(fs, l, op, r))
    case (Text(l), Text(r)) => Ok(CompareText(l, op, r))
    case (Bool(l), Bool(r)) => CompareBool(l, op, r)
    case _ => Err(TypeMismatch)
  }

  // ---------------------------------------------------------------- logical fold

  /** The stand-alone logical operator: conjunction and disjunction; `None` and `Not` are
      rejected. The compiled predicate does not call it. */
  function EvaluateLogical(left: bool, op: LogicalOp, right: bool): Result<bool> {
    match op
    case And => Ok(left && right)
    case Or => Ok(left || right)
    case _ => Err(UnsupportedOp)
  }

  /** One fold step: `None` replaces the accumulator, `And` and `Or` combine with it,
      `Not` is rejected. */
  function Combine(acc: bool, op: LogicalOp, sub: bool): Result<bool> {
    match op
    case And => Ok(acc && sub)
    case Or => Ok(acc || sub)
    case None => Ok(sub)
    case Not => Err(UnsupportedOp)
  }

  predicate FoldAccepts(op: LogicalOp) {
    op.And? || op.Or? || op.None?
  }

  /** A unary expression compares its key's value (left) with its literal (right). A binary
      one resolves its left key, then its right key, applies the arithmetic operator, and
      compares that result with its literal. */
  function EvalExpr(fs: FloatSemantics, e: Expression, keys: seq<Key>): Result<bool> {
    match e
    case Unary(u) =>
      var v :- Lookup(keys, u.key);
      Compare(fs, v, u.op, u.value)
    case Binary(b) =>
      var l :- Lookup(keys, b.leftKey);
      var r :- Lookup(keys, b.rightKey);
      var a :- Arithmetic(fs, l, b.arithOp, r);
      Compare(fs, a, b.compOp, b.value)
  }

  /** How a fold evaluates each expression. The fold reads the record only through it, so
      the fold's laws hold whatever the expressions are. */
  type Evaluator = Expression -> Result<bool>

  /** The evaluator of the compiled predicate: every expression against the same record. */
  function RecordEvaluator(fs: FloatSemantics, keys: seq<Key>): Evaluator {
    e => EvalExpr(fs, e, keys)
  }

  /** Folds one sub-expression into `acc`: its expression is evaluated first, so an
      expression error wins over a rejected tag. */
  function Step(eval: Evaluator, s: SubExpression, acc: bool): Result<bool> {
    var sub :- eval(s.expr);
    Combine(acc, s.prevLogicalOp, sub)
  }

  /** The sub-expression evaluates and carries a tag the fold accepts. */
  predicate StepOk(eval: Evaluator, s: SubExpression) {
    eval(s.expr).Ok? && FoldAccepts(s.prevLogicalOp)
  }

  /** Left-to-right fold of `subs` into `acc`. Every sub-expression is evaluated; nothing is
      skipped once the result is decided. It succeeds exactly when every step does, and when
      the last step is tagged `None` the result is that step's value alone. */
  function Fold(eval: Evaluator, subs: seq<SubExpression>, acc: bool): (r: Result<bool>)
    ensures r.Ok? <==> forall i :: 0 <= i < |subs| ==> StepOk(eval, subs[i])
    ensures r.Ok? && |subs| > 0 && subs[|subs| - 1].prevLogicalOp == None ==>
              r.value == eval(subs[|subs| - 1].expr).value
    decreases |subs|
  {
    if |subs| == 0 then Ok(acc)
    else
      var acc' :- Step(eval, subs[0], acc);
      Fold(eval, subs[1..], acc')
  }

  // ---------------------------------------------------------------- compiled predicate

  /** The compiled filter: an immutable copy of the condition. */
  datatype Predicate = Predicate(condition: FilterCondition)

  /** Compilation inspects nothing and cannot fail. */
  function Parse(condition: FilterCondition): Predicate {
    Predicate(condition)
  }

  /** Evaluates the predicate against one record, starting from `true`. An empty condition
      is `true` for every record; evaluation succeeds exactly when every sub-expression
      evaluates and carries an `And`, `Or` or `None` tag. */
  function Eval(fs: FloatSemantics, p: Predicate, keys: seq<Key>): (r: Result<bool>)
    ensures |p.condition.subExpressions| == 0 ==> r == Ok(true)
    ensures r.Ok? <==> forall i :: 0 <= i < |p.condition.subExpressions| ==>
                          EvalExpr(fs, p.condition.subExpressions[i].expr, keys).Ok? &&
                          FoldAccepts(p.condition.subExpressions[i].prevLogicalOp)
  {
    Fold(RecordEvaluator(fs, keys), p.condition.subExpressions, true)
  }

  /** One sub-expression as the source evaluates it: resolve the keys, apply the arithmetic
      operator, compare, and return the first error met. */
  method EvaluateExpression(fs: FloatSemantics, e: Expression, keys: seq<Key>) returns (r: Result<bool>)
    ensures r == EvalExpr(fs, e, keys)
  {
    match e {
      case Unary(u) =>
        var keyValue := Lookup(keys, u.key);
        if keyValue.Err? {
          return Err(keyValue.error);
        }
        r := Compare(fs, keyValue.value, u.op, u.value);
      case Binary(b) =>
        var leftValue := Lookup(keys, b.leftKey);
        if leftValue.Err? {
          return Err(leftValue.error);
        }
        var rightValue := Lookup(keys, b.rightKey);
        if rightValue.Err? {
          return Err(rightValue.error);
        }
        var arithResult := Arithmetic(fs, leftValue.value, b.arithOp, rightValue.value);
        if arithResult.Err? {
          return Err(arithResult.error);
        }
        r := Compare(fs, arithResult.value, b.compOp, b.value);
    }
  }

  /** The evaluation loop as the source writes it, with an accumulator and early exit on
      the first failure; it computes exactly `Eval`. */
  method Evaluate(fs: FloatSemantics, p: Predicate, keys: seq<Key>) returns (r: Result<bool>)
    ensures r == Eval(fs, p, keys)
  {
    var subs := p.condition.subExpressions;
    ghost var eval := RecordEvaluator(fs, keys);
    var result := true;
    var i := 0;
    while i < |subs|
      invariant 0 <= i <= |subs|
      invariant Fold(eval, subs[i..], result) == Fold(eval, subs, true)
    {
      var subExpr := subs[i];
      assert subs[i..][0] == subExpr && subs[i..][1..] == subs[i + 1..];
      var subResult := EvaluateExpression(fs, subExpr.expr, keys);
      assert subResult == eval(subExpr.expr);
      if subResult.Err? {
        return Err(subResult.error);
      }
      match subExpr.prevLogicalOp {
        case And => result := result && subResult.value;
        case Or => result := result || subResult.value;
        case None => result := subResult.value;
        case Not => return Err(UnsupportedOp);
      }
      i := i + 1;
    }
    r := Ok(result);
  }
}
