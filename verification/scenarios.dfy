/** Concrete conditions and records from the repository's example program and tests, with
    the outcome the model gives them. Doubles are written as their IEEE bit patterns; with
    the floating-point operations left abstract, double scenarios are decided at the level
    of variants and errors only. */
module Scenarios {
  import opened Enums
  import opened Errors
  import opened Values
  import opened FilterStructs
  import opened LexOrder
  import opened Parser

  function UnarySub(op: ComparisonOp, key: string, lit: Value, tag: LogicalOp): SubExpression {
    SubExpression(Unary(UnaryExpression(op, key, lit)), tag)
  }

  function BinarySub(l: string, aop: ArithmeticOp, r: string, cop: ComparisonOp, lit: Value): SubExpression {
    SubExpression(Binary(BinaryExpression(l, aop, r, cop, lit)), None)
  }

  /** `[(A > 10) None, (B < 20) And]` over `{A: 15, B: 15}` is true. */
  lemma ExampleProgram(fs: FloatSemantics)
    ensures Eval(fs, Parse(FilterCondition([UnarySub(GreaterThan, "A", Int(10), None),
                                            UnarySub(LessThan, "B", Int(20), And)])),
                 [Key("A", Int(15)), Key("B", Int(15))]) == Ok(true)
  {
    var subs := [UnarySub(GreaterThan, "A", Int(10), None), UnarySub(LessThan, "B", Int(20), And)];
    var keys := [Key("A", Int(15)), Key("B", Int(15))];
    assert Lookup(keys, "A") == Ok(Int(15)) by {
      assert IsFirstMatch(keys, "A", 0);
    }
    assert Lookup(keys, "B") == Ok(Int(15)) by {
      assert IsFirstMatch(keys, "B", 1);
    }
    assert subs[1..] == [subs[1]];
  }

  /** `(x + y) >= 5.0` over `{x: 2.5, y: 3}`: the integer is promoted, the sum is a double,
      and the outcome is the platform's `5.0 <= 2.5 + 3.0`. */
  lemma MixedArithmeticPromotes(fs: FloatSemantics)
    ensures var x := Double(0x4004_0000_0000_0000);
      var five := Double(0x4014_0000_0000_0000);
      Eval(fs, Parse(FilterCondition([BinarySub("x", Add, "y", GreaterEqual, Float(five))])),
           [Key("x", Float(x)), Key("y", Int(3))])
        == Ok(fs.le(five, fs.add(x, fs.fromInt(3))))
  {
    var keys := [Key("x", Float(Double(0x4004_0000_0000_0000))), Key("y", Int(3))];
    assert IsFirstMatch(keys, "x", 0);
    assert IsFirstMatch(keys, "y", 1);
  }

  /** `(k0 * k1) == 42` is true over `{k0: 7, k1: 6}` and false once `k0` becomes 8,
      with the same predicate. */
  lemma MultiplyThenCompare(fs: FloatSemantics)
    ensures var p := Parse(FilterCondition([BinarySub("k0", Multiply, "k1", Equal, Int(42))]));
      var keys := [Key("k0", Int(7)), Key("k1", Int(6))];
      && Eval(fs, p, keys) == Ok(true)
      && Eval(fs, p, SetValueAt(keys, 0, Int(8))) == Ok(false)
  {
    var keys := [Key("k0", Int(7)), Key("k1", Int(6))];
    var keys' := SetValueAt(keys, 0, Int(8));
    assert IsFirstMatch(keys, "k0", 0) && IsFirstMatch(keys, "k1", 1);
    assert IsFirstMatch(keys', "k0", 0) && IsFirstMatch(keys', "k1", 1);
  }

  /** `(x / y) == 0` over `{x: 10, y: 0}` fails with a division by zero. */
  lemma IntDivisionByZero(fs: FloatSemantics)
    ensures Eval(fs, Parse(FilterCondition([BinarySub("x", Divide, "y", Equal, Int(0))])),
                 [Key("x", Int(10)), Key("y", Int(0))]) == Err(DivisionByZero)
  {
    var keys := [Key("x", Int(10)), Key("y", Int(0))];
    assert IsFirstMatch(keys, "x", 0) && IsFirstMatch(keys, "y", 1);
  }

  /** A key name absent from the record fails with that name. */
  lemma MissingKey(fs: FloatSemantics)
    ensures Eval(fs, Parse(FilterCondition([UnarySub(Equal, "missing", Int(1), None)])),
                 [Key("present", Int(1))]) == Err(KeyNotFound("missing"))
  {
  }

  /** `name < "z"` is true for "mango" and false for "zzz". */
  lemma StringLexicographic(fs: FloatSemantics)
    ensures var p := Parse(FilterCondition([UnarySub(LessThan, "name", Text("z"), None)]));
      && Eval(fs, p, [Key("name", Text("mango"))]) == Ok(true)
      && Eval(fs, p, [Key("name", Text("zzz"))]) == Ok(false)
  {
    assert LexLess("mango", "z");
    assert "zzz"[1..] == "zz" && "z"[1..] == "";
    assert !LexLess("zzz", "z");
    assert IsFirstMatch([Key("name", Text("mango"))], "name", 0);
    assert IsFirstMatch([Key("name", Text("zzz"))], "name", 0);
  }

  /** The unit test's chain `[(a == 1) And, (b == 2) Or, (a != 0) None]`. A tag joins its
      sub-expression to everything before it, so the trailing `None` discards the first two
      results and the outcome is `a != 0` alone, for every integer record `{a, b}`; the
      test's record `{a: 1, b: 2}` is the case `x == 1`, which gives `true`. */
  lemma AndOrChaining(fs: FloatSemantics, x: Int64, y: Int64)
    ensures Eval(fs, Parse(FilterCondition([UnarySub(Equal, "a", Int(1), And),
                                            UnarySub(Equal, "b", Int(2), Or),
                                            UnarySub(NotEqual, "a", Int(0), None)])),
                 [Key("a", Int(x)), Key("b", Int(y))]) == Ok(x != 0)
  {
    var subs := [UnarySub(Equal, "a", Int(1), And), UnarySub(Equal, "b", Int(2), Or),
                 UnarySub(NotEqual, "a", Int(0), None)];
    var keys := [Key("a", Int(x)), Key("b", Int(y))];
    assert IsFirstMatch(keys, "a", 0) && IsFirstMatch(keys, "b", 1);
    assert subs[1..] == [subs[1], subs[2]] && subs[1..][1..] == [subs[2]];
    assert Fold(RecordEvaluator(fs, keys), subs[1..][1..], y == 2) == Ok(x != 0);
  }

  /** An integer key compared with a string literal is a type mismatch. */
  lemma IntAgainstText(fs: FloatSemantics)
    ensures Eval(fs, Parse(FilterCondition([UnarySub(Equal, "a", Text("1"), None)])),
                 [Key("a", Int(1)), Key("b", Text("1"))]) == Err(TypeMismatch)
  {
    assert IsFirstMatch([Key("a", Int(1)), Key("b", Text("1"))], "a", 0);
  }

  /** A boolean key supports `==` but not `>`. */
  lemma BoolEqualityOnly(fs: FloatSemantics)
    ensures Eval(fs, Parse(FilterCondition([UnarySub(Equal, "flag", Bool(true), None)])),
                 [Key("flag", Bool(true))]) == Ok(true)
    ensures Eval(fs, Parse(FilterCondition([UnarySub(GreaterThan, "flag", Bool(false), None)])),
                 [Key("flag", Bool(true))]) == Err(UnsupportedOp)
  {
    assert IsFirstMatch([Key("flag", Bool(true))], "flag", 0);
  }
}
