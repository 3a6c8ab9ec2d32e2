/** Properties of the evaluator that relate several calls or hold for every input. */
module ParserProperties {
  import opened Enums
  import opened Errors
  import opened Values
  import opened FilterStructs
  import opened IntDivision
  import opened LexOrder
  import opened Parser

  // ---------------------------------------------------------------- key resolution

  /** Keys after the first match are never consulted: appending keys, including keys with
      the same name, does not change a successful lookup. */
  lemma LookupIgnoresLaterKeys(keys: seq<Key>, more: seq<Key>, name: string)
    requires Lookup(keys, name).Ok?
    ensures Lookup(keys + more, name) == Lookup(keys, name)
  {
    var i := FindFirst(keys, name);
    assert IsFirstMatch(keys, name, i);
    assert IsFirstMatch(keys + more, name, i);
  }

  /** Replacing the value of key `i` is seen by exactly the name whose first match is `i`;
      every other lookup is unchanged, because names are never changed. */
  lemma LookupAfterSetValue(keys: seq<Key>, i: nat, v: Value, name: string)
    requires i < |keys|
    ensures Lookup(SetValueAt(keys, i, v), name) ==
              if IsFirstMatch(keys, name, i) then Ok(v) else Lookup(keys, name)
  {
    var keys' := SetValueAt(keys, i, v);
    var j := FindFirst(keys, name);
    if j < |keys| {
      assert IsFirstMatch(keys, name, j);
      assert IsFirstMatch(keys', name, j);
      if IsFirstMatch(keys, name, i) {
        assert i == j;
      }
    } else {
      assert forall k :: 0 <= k < |keys'| ==> keys'[k].GetName() != name;
    }
  }

  // ---------------------------------------------------------------- arithmetic

  /** Integer addition is exact and is undone by subtraction, when the sum fits. */
  lemma IntAddSubtractRoundTrip(fs: FloatSemantics, a: Int64, b: Int64)
    requires InInt64(a + b)
    ensures Arithmetic(fs, Int(a), Add, Int(b)) == Ok(Int(a + b))
    ensures Arithmetic(fs, Arithmetic(fs, Int(a), Add, Int(b)).value, Subtract, Int(b)) == Ok(Int(a))
  {
  }

  /** Integer multiplication is exact and is undone by division, when the product fits and
      the divisor is not zero. */
  lemma IntMultiplyDivideRoundTrip(fs: FloatSemantics, a: Int64, b: Int64)
    requires b != 0 && INT64_MIN <= a * b <= INT64_MAX
    ensures Arithmetic(fs, Int(a), Multiply, Int(b)) == Ok(Int(a * b))
    ensures Arithmetic(fs, Arithmetic(fs, Int(a), Multiply, Int(b)).value, Divide, Int(b)) == Ok(Int(a))
  {
    TruncDivOfProduct(a, b);
  }

  /** Two numbers of which at least one is a double are both promoted and combined with the
      platform's double operation for `op`; the only failure is division by a divisor equal
      to 0.0 after promotion. */
  lemma FloatDomainArithmetic(fs: FloatSemantics, left: Value, op: ArithmeticOp, right: Value)
    requires left.IsNumeric() && right.IsNumeric() && !(left.Int? && right.Int?)
    ensures var r := Arithmetic(fs, left, op, right);
            var l, d := ToDouble(fs, left), ToDouble(fs, right);
      && (r.Err? <==> op == Divide && fs.eq(d, fs.zero))
      && (r.Err? ==> r.error == DivisionByZero)
      && (r.Ok? ==> r.value == Float(match op
                                     case Add => fs.add(l, d)
                                     case Subtract => fs.sub(l, d)
                                     case Multiply => fs.mul(l, d)
                                     case Divide => fs.div(l, d)))
  {
  }

  /** Integer addition, subtraction and multiplication give the exact result when it fits
      in 64 bits and the overflow error otherwise, in both directions. */
  lemma IntArithmeticOverflow(fs: FloatSemantics, a: Int64, op: ArithmeticOp, b: Int64)
    requires op != Divide
    ensures var exact := match op
                         case Add => a + b
                         case Subtract => a - b
                         case Multiply => a * b
                         case Divide => 0;
            var r := Arithmetic(fs, Int(a), op, Int(b));
      && (INT64_MIN <= exact <= INT64_MAX ==> r == Ok(Int(exact)))
      && (exact < INT64_MIN || INT64_MAX < exact ==> r == Err(Overflow))
  {
  }

  /** Integer division by a non-zero divisor truncates toward zero, and its only failure is
      the one quotient that does not fit, `INT64_MIN / -1`. */
  lemma IntDivideTruncates(fs: FloatSemantics, a: Int64, b: Int64)
    requires b != 0
    ensures var r := Arithmetic(fs, Int(a), Divide, Int(b));
      && (r.Err? <==> a == INT64_MIN && b == -1)
      && (r.Err? ==> r.error == Overflow)
      && (r.Ok? ==> r.value.Int?
                    && Abs(r.value.intVal) == Abs(a) / Abs(b)
                    && Abs(a - r.value.intVal * b) < Abs(b)
                    && (a - r.value.intVal * b == 0 || (a - r.value.intVal * b < 0 <==> a < 0)))
  {
    TruncDivIsTruncation(a, b);
    assert InInt64(a) && InInt64(b);
    if Abs(b) == 1 {
      assert TruncDiv(a, b) == if b == 1 then a as int else -(a as int);
    } else {
      TruncDivHalves(a, b);
      var q := TruncDiv(a, b);
      assert Abs(q) <= 0x4000_0000_0000_0000;
    }
  }

  /** Division by zero fails whatever the dividend, in either numeric domain. An integer
      zero divisor under a double dividend is converted first, so that case needs the
      conversion of 0 to equal 0.0. */
  lemma DivideByZeroFails(fs: FloatSemantics, left: Value, right: Value)
    requires left.IsNumeric()
    requires right == Int(0) || (right.Float? && fs.eq(right.floatVal, fs.zero))
    requires left.Float? && right.Int? ==> ZeroConvertsExactly(fs)
    ensures Arithmetic(fs, left, Divide, right) == Err(DivisionByZero)
  {
  }

  // ---------------------------------------------------------------- comparison

  /** For integers and strings, all six operators succeed and behave as a strict total
      order and its derived relations. */
  lemma OrderedComparisonLaws(fs: FloatSemantics, a: Value, b: Value)
    requires (a.Int? && b.Int?) || (a.Text? && b.Text?)
    ensures forall op :: Compare(fs, a, op, b).Ok?
    ensures Compare(fs, a, Equal, b) == Ok(a == b)
    ensures Compare(fs, a, NotEqual, b).value == !Compare(fs, a, Equal, b).value
    ensures Compare(fs, a, GreaterThan, b) == Compare(fs, b, LessThan, a)
    ensures Compare(fs, a, GreaterEqual, b).value ==
              (Compare(fs, a, GreaterThan, b).value || Compare(fs, a, Equal, b).value)
    ensures Compare(fs, a, LessEqual, b).value ==
              (Compare(fs, a, LessThan, b).value || Compare(fs, a, Equal, b).value)
    ensures Compare(fs, a, LessThan, b).value ==> !Compare(fs, b, LessThan, a).value && a != b
    ensures a != b ==> Compare(fs, a, LessThan, b).value || Compare(fs, b, LessThan, a).value
    ensures a.Int? ==> Compare(fs, a, LessThan, b) == Ok(a.intVal < b.intVal)
    ensures a.Text? ==> Compare(fs, a, LessThan, b) == Ok(LexLess(a.textVal, b.textVal))
  {
    if a.Text? {
      LexTrichotomy(a.textVal, b.textVal);
    }
  }

  /** For doubles, `==`, `<` and `<=` are the platform's operations on the operands in
      order, inequality negates equality and the swapped operators agree. The comparison
      builds `!=`, `>` and `>=` this way, so the last three record that construction;
      nothing about the order itself is claimed. */
  lemma FloatComparisonDuality(fs: FloatSemantics, a: Double, b: Double)
    ensures forall op :: Compare(fs, Float(a), op, Float(b)).Ok?
    ensures Compare(fs, Float(a), Equal, Float(b)) == Ok(fs.eq(a, b))
    ensures Compare(fs, Float(a), LessThan, Float(b)) == Ok(fs.lt(a, b))
    ensures Compare(fs, Float(a), LessEqual, Float(b)) == Ok(fs.le(a, b))
    ensures Compare(fs, Float(a), NotEqual, Float(b)).value == !Compare(fs, Float(a), Equal, Float(b)).value
    ensures Compare(fs, Float(a), GreaterThan, Float(b)) == Compare(fs, Float(b), LessThan, Float(a))
    ensures Compare(fs, Float(a), GreaterEqual, Float(b)) == Compare(fs, Float(b), LessEqual, Float(a))
  {
  }

  /** Booleans compare for equality and inequality, and reject the four ordering operators. */
  lemma BoolComparison(fs: FloatSemantics, a: bool, b: bool, op: ComparisonOp)
    ensures op == Equal ==> Compare(fs, Bool(a), op, Bool(b)) == Ok(a == b)
    ensures op == NotEqual ==> Compare(fs, Bool(a), op, Bool(b)) == Ok(a != b)
    ensures op.IsOrdering() ==> Compare(fs, Bool(a), op, Bool(b)) == Err(UnsupportedOp)
  {
  }

  /** Integer against double is a mismatch even though arithmetic would promote it. */
  lemma IntFloatNeverCompare(fs: FloatSemantics, i: Int64, d: Double, op: ComparisonOp)
    ensures Compare(fs, Int(i), op, Float(d)) == Err(TypeMismatch)
    ensures Compare(fs, Float(d), op, Int(i)) == Err(TypeMismatch)
  {
  }

  // ---------------------------------------------------------------- sub-expressions

  /** A unary expression resolves its key: an absent key fails with `KeyNotFound` of that
      name, and otherwise the first matching key's value is compared, as the left operand,
      with the literal under the expression's own operator. */
  lemma UnaryEvaluation(fs: FloatSemantics, u: UnaryExpression, keys: seq<Key>)
    ensures Lookup(keys, u.key).Err? ==> EvalExpr(fs, Unary(u), keys) == Err(KeyNotFound(u.key))
    ensures forall i: nat :: IsFirstMatch(keys, u.key, i) ==>
              EvalExpr(fs, Unary(u), keys) == Compare(fs, keys[i].GetValue(), u.op, u.value)
  {
  }

  /** In a unary expression the key's value is the left operand: `key < literal` holds
      exactly when the value sorts before the literal. */
  lemma UnaryKeyIsLeftOperand(fs: FloatSemantics, name: string, v: Value, w: Value, keys: seq<Key>)
    requires Lookup(keys, name) == Ok(v)
    requires (v.Int? && w.Int?) || (v.Text? && w.Text?)
    ensures var r := EvalExpr(fs, Unary(UnaryExpression(LessThan, name, w)), keys);
      && (v.Int? ==> r == Ok(v.intVal < w.intVal))
      && (v.Text? ==> r == Ok(LexLess(v.textVal, w.textVal)))
  {
  }

  /** A binary expression resolves its left key, then its right key, both as key names,
      before any arithmetic; the arithmetic result is then compared with the literal. */
  lemma BinaryResolutionOrder(fs: FloatSemantics, b: BinaryExpression, keys: seq<Key>)
    ensures Lookup(keys, b.leftKey).Err? ==>
              EvalExpr(fs, Binary(b), keys) == Err(KeyNotFound(b.leftKey))
    ensures Lookup(keys, b.leftKey).Ok? && Lookup(keys, b.rightKey).Err? ==>
              EvalExpr(fs, Binary(b), keys) == Err(KeyNotFound(b.rightKey))
    ensures Lookup(keys, b.leftKey).Ok? && Lookup(keys, b.rightKey).Ok? ==>
              var a := Arithmetic(fs, Lookup(keys, b.leftKey).value, b.arithOp, Lookup(keys, b.rightKey).value);
              EvalExpr(fs, Binary(b), keys) == if a.Err? then Err(a.error) else Compare(fs, a.value, b.compOp, b.value)
  {
  }

  /** An integer arithmetic result never matches a double literal, and a promoted result
      never matches an integer literal. */
  lemma BinaryDomainMismatch(fs: FloatSemantics, b: BinaryExpression, keys: seq<Key>)
    requires Lookup(keys, b.leftKey).Ok? && Lookup(keys, b.rightKey).Ok?
    requires Arithmetic(fs, Lookup(keys, b.leftKey).value, b.arithOp, Lookup(keys, b.rightKey).value).Ok?
    ensures Lookup(keys, b.leftKey).value.Int? && Lookup(keys, b.rightKey).value.Int? && b.value.Float? ==>
              EvalExpr(fs, Binary(b), keys) == Err(TypeMismatch)
    ensures (Lookup(keys, b.leftKey).value.Float? || Lookup(keys, b.rightKey).value.Float?) && b.value.Int? ==>
              EvalExpr(fs, Binary(b), keys) == Err(TypeMismatch)
  {
  }

  // ---------------------------------------------------------------- logical fold

  /** The fold's tags: `None` ignores the accumulator, a false conjunct or a true disjunct
      decides the step, `Not` is rejected, and on `And` and `Or` a step agrees with the
      stand-alone logical operator. */
  lemma CombineLaws(acc: bool, sub: bool)
    ensures Combine(acc, None, sub) == Ok(sub)
    ensures Combine(acc, And, false) == Ok(false)
    ensures Combine(acc, Or, true) == Ok(true)
    ensures Combine(acc, Not, sub) == Err(UnsupportedOp)
    ensures Combine(acc, And, sub) == EvaluateLogical(acc, And, sub)
    ensures Combine(acc, Or, sub) == EvaluateLogical(acc, Or, sub)
  {
  }

  /** The stand-alone logical operator is conjunction and disjunction, and rejects `None`
      and `Not`, of which the fold accepts the first and rejects the second. */
  lemma EvaluateLogicalLaws(left: bool, right: bool)
    ensures EvaluateLogical(left, And, right).Ok? && EvaluateLogical(left, And, right).value == (left && right)
    ensures EvaluateLogical(left, Or, right).Ok? && EvaluateLogical(left, Or, right).value == (left || right)
    ensures EvaluateLogical(left, None, right) == Err(UnsupportedOp)
    ensures EvaluateLogical(left, Not, right) == Err(UnsupportedOp)
    ensures FoldAccepts(None) && !FoldAccepts(Not)
  {
  }

  /** The fold runs strictly left to right: folding one more sub-expression is folding the
      prefix and then taking one step. */
  lemma {:induction false} FoldAppend(eval: Evaluator, subs: seq<SubExpression>, s: SubExpression, acc: bool)
    ensures Fold(eval, subs + [s], acc) ==
              match Fold(eval, subs, acc)
              case Err(e) => Err(e)
              case Ok(a) => Step(eval, s, a)
    decreases |subs|
  {
    if |subs| == 0 {
      assert subs + [s] == [s];
    } else {
      assert (subs + [s])[0] == subs[0];
      assert (subs + [s])[1..] == subs[1..] + [s];
      var st := Step(eval, subs[0], acc);
      if st.Ok? {
        FoldAppend(eval, subs[1..], s, st.value);
      }
    }
  }

  /** A failing step's error: its expression's error if it has one, else the tag's. */
  function StepError(eval: Evaluator, s: SubExpression): Error
    requires !StepOk(eval, s)
  {
    var e := eval(s.expr);
    if e.Err? then e.error else UnsupportedOp
  }

  /** A step succeeds exactly when its sub-expression is accepted, and otherwise fails
      with the step error, whatever the accumulator. */
  lemma StepOutcome(eval: Evaluator, s: SubExpression, acc: bool)
    ensures Step(eval, s, acc).Ok? <==> StepOk(eval, s)
    ensures !StepOk(eval, s) ==> Step(eval, s, acc) == Err(StepError(eval, s))
  {
  }

  /** No short-circuit: whatever the accumulator, evaluation fails with the error of the
      first failing sub-expression. */
  lemma {:induction false} FoldFirstError(eval: Evaluator, subs: seq<SubExpression>, acc: bool, i: nat)
    requires i < |subs| && !StepOk(eval, subs[i])
    requires forall j :: 0 <= j < i ==> StepOk(eval, subs[j])
    ensures Fold(eval, subs, acc) == Err(StepError(eval, subs[i]))
    decreases i
  {
    StepOutcome(eval, subs[0], acc);
    if i > 0 {
      var st := Step(eval, subs[0], acc);
      assert StepOk(eval, subs[0]);
      assert subs[1..][i - 1] == subs[i];
      assert forall j :: 0 <= j < i - 1 ==> subs[1..][j] == subs[j + 1];
      FoldFirstError(eval, subs[1..], st.value, i - 1);
    }
  }

  /** A `None` tag discards everything before it: once the steps up to position `i` succeed
      and step `i` is tagged `None`, the result is the fold of `subs[i..]` from any seed. */
  lemma {:induction false} NoneDiscardsPrefix(eval: Evaluator, subs: seq<SubExpression>, acc: bool,
                                              seed: bool, i: nat)
    requires i < |subs| && subs[i].prevLogicalOp == None
    requires forall j :: 0 <= j < i ==> StepOk(eval, subs[j])
    ensures Fold(eval, subs, acc) == Fold(eval, subs[i..], seed)
    decreases i
  {
    if i > 0 {
      assert StepOk(eval, subs[0]);
      var st := Step(eval, subs[0], acc);
      assert forall j :: 0 <= j < i - 1 ==> subs[1..][j] == subs[j + 1];
      assert subs[1..][i - 1..] == subs[i..];
      NoneDiscardsPrefix(eval, subs[1..], st.value, seed, i - 1);
    }
  }

  /** A `Not` tag anywhere makes evaluation fail; when nothing fails before it, the error is
      the tag's, or its own expression's. */
  lemma NotTagFails(fs: FloatSemantics, p: Predicate, keys: seq<Key>, i: nat)
    requires i < |p.condition.subExpressions| && p.condition.subExpressions[i].prevLogicalOp == Not
    ensures Eval(fs, p, keys).Err?
    ensures (forall j :: 0 <= j < i ==> StepOk(RecordEvaluator(fs, keys), p.condition.subExpressions[j])) ==>
              var e := EvalExpr(fs, p.condition.subExpressions[i].expr, keys);
              Eval(fs, p, keys) == if e.Err? then Err(e.error) else Err(UnsupportedOp)
  {
    var eval := RecordEvaluator(fs, keys);
    if forall j :: 0 <= j < i ==> StepOk(eval, p.condition.subExpressions[j]) {
      FoldFirstError(eval, p.condition.subExpressions, true, i);
    }
  }

  /** Without precedence, `A And B Or C` means `(A and B) or C`. */
  lemma ThreeStepsFoldLeft(eval: Evaluator, e1: Expression, e2: Expression, e3: Expression,
                           a: bool, b: bool, c: bool)
    requires eval(e1) == Ok(a) && eval(e2) == Ok(b) && eval(e3) == Ok(c)
    ensures Fold(eval, [SubExpression(e1, None), SubExpression(e2, And), SubExpression(e3, Or)], true)
              == Ok((a && b) || c)
  {
    var subs := [SubExpression(e1, None), SubExpression(e2, And), SubExpression(e3, Or)];
    assert subs[1..] == [SubExpression(e2, And), SubExpression(e3, Or)];
    assert subs[1..][1..] == [SubExpression(e3, Or)];
    assert subs[1..][1..][1..] == [];
    assert Fold(eval, subs[1..][1..], a && b) == Ok((a && b) || c);
    assert Fold(eval, subs[1..], a) == Ok((a && b) || c);
  }

  // ---------------------------------------------------------------- compiled predicate

  function EqualsCondition(name: string, lit: Value): FilterCondition {
    FilterCondition([SubExpression(Unary(UnaryExpression(Equal, name, lit)), None)])
  }

  /** A single `key == literal` sub-expression over a non-double literal is true exactly when
      the key's current value equals the literal in both variant and payload. */
  lemma SingleEqualIff(fs: FloatSemantics, name: string, lit: Value, keys: seq<Key>)
    requires !lit.Float?
    ensures Eval(fs, Parse(EqualsCondition(name, lit)), keys) == Ok(true) <==> Lookup(keys, name) == Ok(lit)
  {
  }

  /** The compiled predicate reads the record on every call: after the first key named
      `name` is given value `w`, the same predicate answers for `w`. A replacement of the
      same variant gives `true` or `false`; one of another variant is a type mismatch. */
  lemma ReplacementSeenWithoutRecompiling(fs: FloatSemantics, name: string, lit: Value,
                                          keys: seq<Key>, i: nat, w: Value)
    requires !lit.Float? && IsFirstMatch(keys, name, i)
    ensures var p := Parse(EqualsCondition(name, lit));
      var r := Eval(fs, p, SetValueAt(keys, i, w));
      && (w.Index() == lit.Index() ==> r == Ok(w == lit))
      && (w.Index() != lit.Index() ==> r == Err(TypeMismatch))
  {
    LookupAfterSetValue(keys, i, w, name);
  }
}
