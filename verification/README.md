# ExpressionEvaluator filter compiler, modelled in Dafny

The modelled library compiles a pre-built filter condition into a reusable predicate and
evaluates it against records of named, typed keys. A condition is an ordered list of
sub-expressions. A sub-expression is either a unary comparison (`key op literal`) or a
binary one (`(leftKey arith rightKey) op literal`), and each one carries the logical tag
that folds it into the result of everything before it. Evaluation resolves keys by linear
search, applies integer or promoted floating-point arithmetic, and compares operands of
the same variant. It folds the results left to right from `true`, with no precedence and
no short-circuit. Every failure aborts the call.

Modules:
- `Enums` (`enums.dfy`): the arithmetic, comparison and logical operator enumerations.
- `Values` (`values.dfy`): the four-variant `Value`, 64-bit integers, the `Key` slot, and
  the abstract floating-point operations `FloatSemantics`.
- `FilterStructs` (`filter_structs.dfy`): unary and binary expressions, sub-expressions and
  conditions.
- `Errors` (`errors.dfy`): the error kinds and the `Result` type.
- `IntDivision` (`int_division.dfy`): division truncating toward zero.
- `LexOrder` (`lex_order.dfy`): lexicographic string order.
- `Parser` (`parser.dfy`): key lookup, arithmetic, comparison, the fold, the compiled
  `Predicate`, the pure `Eval` and the loop `Evaluate`.
- `ParserProperties` (`parser_properties.dfy`): lemmas relating the operations.
- `Scenarios` (`scenarios.dfy`): the example program and the unit tests' cases.

Modelling choices:
- The source's one exception type, told apart only by its message, becomes `Errors.Error`.
  Its variants are `KeyNotFound(name)`, `DivisionByZero`, `TypeMismatch` and
  `UnsupportedOp`.
- Signed 64-bit `+`, `-`, `*` and `INT64_MIN / -1` overflow, which is undefined behaviour in
  C++. The model computes the exact result and returns a fifth error kind, `Overflow`, when
  that result does not fit.
- C++ integer `/` truncates toward zero. `IntDivision.TruncDiv` writes this out, because
  Dafny's `/` is Euclidean.
- A double is kept as its 64-bit pattern and never interpreted. Conversion from integers,
  `+ - * /`, and the float `==`, `<` and `<=` are fields of a `FloatSemantics` value passed
  in as a parameter. The test `r == 0.0` is `fs.eq(r, fs.zero)`. The model takes three
  IEEE-754 facts as its definition of the remaining comparisons: `l != r` is `!fs.eq(l, r)`,
  `l > r` is `fs.lt(r, l)` and `l >= r` is `fs.le(r, l)`.
  `ParserProperties.FloatComparisonDuality` holds by this construction and records it. One
  further fact, that converting 0 gives a value equal to 0.0 (`ZeroConvertsExactly`), is a
  hypothesis of the lemmas that need it.
- The compiled lambda becomes the immutable datatype `Parser.Predicate`. It holds a copy of
  the condition, and `Parser.Eval` is the call of the lambda.
- The fold takes the expression evaluator as a parameter (`Parser.Evaluator`), so its laws
  are proved for every evaluator. The compiled predicate uses `Parser.RecordEvaluator`,
  which evaluates each expression against the same record.
- `Key` is an immutable datatype. `setValue` returns the updated key (`Key.SetValue`), and
  `SetValueAt` updates one key of a record.
- Strings compare character by character on character codes. For byte strings this agrees
  with `std::string`'s unsigned-char comparison.

Facts of the code that the model keeps:
- Keys are found by linear search, and the first key with the name wins
  (`src/parser.cpp:131`). Later keys with the same name are never read.
- `getValueFromKeyMap`, a map-based resolver, is declared in `include/parser.h:21` but never
  defined, so no evaluation goes through a name index.
- Applying an ordering operator to booleans fails with `UnsupportedOp`
  (`src/parser.cpp:123`).
- Replacing a key's value with one of another variant makes a `key == literal` predicate fail
  with `TypeMismatch`, not return `false` (`ParserProperties.ReplacementSeenWithoutRecompiling`).
- A sub-expression's tag joins it to everything before it. The tag of the first
  sub-expression combines with the initial `true`, and a `None` tag discards all earlier
  results (`ParserProperties.NoneDiscardsPrefix`, `Scenarios.AndOrChaining`). One unit test's
  comment reads the tags as joining a sub-expression to the next one instead.

## Model

| member | source | states |
|---|---|---|
| `Values.Key.SetValue` | include/key.h:13-15 | after replacing the value, the key reports exactly the new value and still the same name |
| `Values.SetValueAt` | include/key.h:15 | updating key `i` of a record changes that key's value only; every key keeps its name and every other key is untouched |
| `IntDivision.TruncDivIsTruncation` | src/parser.cpp:55 | the quotient truncates toward zero: the remainder is smaller than the divisor in magnitude and zero or of the dividend's sign, and the quotient's magnitude is the quotient of the magnitudes |
| `IntDivision.TruncDivOfProduct` | src/parser.cpp:55 | dividing an exact product by one factor gives back the other factor |
| `LexOrder.LexLessMatchesPosition` | src/parser.cpp:111-114 | the recursive string order is "proper prefix, or smaller at the first differing position" |
| `LexOrder.LexTrichotomy` | src/parser.cpp:109-114 | string order is a strict total order: exactly one of less, equal, greater holds |
| `LexOrder.LexTransitive` | src/parser.cpp:111-114 | string order is transitive |
| `Parser.FindFirst` | src/parser.cpp:131 | linear search returns the position of the first key with the name, or the record length if there is none |
| `Parser.FirstMatchIsFound` | src/parser.cpp:131-133 | a record has at most one first key with a given name, and linear search returns its position |
| `Parser.Lookup` | src/parser.cpp:130-136 | returns the value of the first key with exactly that name; fails with `KeyNotFound(name)` exactly when no key has it |
| `Parser.Arithmetic` | src/parser.cpp:45-74 | a successful int with int gives an int and a successful result with a double operand gives a double; the result is a type mismatch exactly when an operand is a string or boolean; the only errors are type mismatch, division by zero and overflow, so no operator is unsupported; an integer zero divisor of an integer, or any divisor equal to 0.0, fails |
| `Parser.Compare` | src/parser.cpp:76-128 | operands of different variants are a type mismatch for every operator; for same-variant operands the only failure is an ordering operator on booleans, which is unsupported |
| `Parser.Fold` | src/parser.cpp:10-40 | for every way of evaluating expressions, the fold succeeds exactly when every sub-expression evaluates and carries an And, Or or None tag, even after the result is decided; with a None tag last, the result is that sub-expression's value alone |
| `Parser.Eval` | src/parser.cpp:7-43 | the compiled predicate gives `true` for an empty condition on every record, and succeeds exactly when every step succeeds |
| `Parser.Evaluate` | src/parser.cpp:8-42 | the accumulator loop with early exit computes exactly what `Eval` computes |
| `ParserProperties.LookupIgnoresLaterKeys` | src/parser.cpp:131-133 | keys after the first match, including duplicates of the name, never change a successful lookup |
| `ParserProperties.LookupAfterSetValue` | include/key.h:15 | after a value replacement, only the name whose first match is the replaced key sees the new value; all other lookups are unchanged |
| `ParserProperties.IntAddSubtractRoundTrip` | src/parser.cpp:50-51 | integer addition is exact, and subtracting the addend gives back the original, when the sum fits |
| `ParserProperties.FloatDomainArithmetic` | src/parser.cpp:58-70 | two numbers of which at least one is a double are both converted to double and combined with the double `+`, `-`, `*` or `/`; the result is a double, and the only failure is division by zero when the promoted divisor equals 0.0 |
| `ParserProperties.IntArithmeticOverflow` | src/parser.cpp:50-52 | integer `+`, `-` and `*` give the exact result when it fits in 64 bits, and the overflow error exactly when it does not |
| `ParserProperties.IntMultiplyDivideRoundTrip` | src/parser.cpp:52-55 | integer multiplication is exact, and dividing by the factor gives back the original, when the product fits |
| `ParserProperties.IntDivideTruncates` | src/parser.cpp:53-55 | integer division by a non-zero divisor fails only for `INT64_MIN / -1`; otherwise it gives an int truncated toward zero |
| `ParserProperties.DivideByZeroFails` | src/parser.cpp:53-67 | division by an integer zero or by a double equal to 0.0 fails with division by zero, whatever the numeric dividend |
| `ParserProperties.OrderedComparisonLaws` | src/parser.cpp:81-116 | for ints and strings all six operators succeed; `==` is equality and `<` is the integer order or the lexicographic string order; `!=` negates `==`, `>` is swapped `<`, `>=` and `<=` are the strict order or equality, and the order is strict and total |
| `ParserProperties.FloatComparisonDuality` | src/parser.cpp:93-103 | for doubles all six operators succeed; `==`, `<` and `<=` are the platform's double operations on the operands in order; `!=` negates `==`, and `>` and `>=` are the swapped `<` and `<=`, which holds by the model's construction of those three comparisons, the IEEE-754 facts listed above |
| `ParserProperties.BoolComparison` | src/parser.cpp:117-124 | booleans support `==` and `!=` with their usual meaning, and the four ordering operators fail as unsupported |
| `ParserProperties.IntFloatNeverCompare` | src/parser.cpp:77-79 | an int never compares with a double, in either order, for any operator |
| `ParserProperties.UnaryEvaluation` | src/parser.cpp:12-15 | a unary expression fails with `KeyNotFound` of its key when the key is absent, and otherwise gives the comparison of the first matching key's value with the literal under the expression's own operator |
| `ParserProperties.UnaryKeyIsLeftOperand` | src/parser.cpp:14-15 | in a unary expression the key's value is the left operand, so `key < literal` holds exactly when the value sorts before the literal |
| `ParserProperties.BinaryResolutionOrder` | src/parser.cpp:18-21 | a binary expression looks up its left key, then its right key, both as key names, and only then does arithmetic and compares the result with the literal |
| `ParserProperties.BinaryDomainMismatch` | src/parser.cpp:20-21 | an integer arithmetic result against a double literal, or a promoted result against an integer literal, is a type mismatch |
| `ParserProperties.CombineLaws` | src/parser.cpp:27-38 | a None step ignores the accumulator; a false And or a true Or decides the step; Not is rejected; on And and Or a step agrees with the stand-alone logical operator |
| `ParserProperties.EvaluateLogicalLaws` | src/parser.cpp:139-145 | the stand-alone logical operator is conjunction on And and disjunction on Or, and rejects None and Not as unsupported |
| `ParserProperties.FoldAppend` | src/parser.cpp:10-40 | the fold runs strictly left to right: folding one more sub-expression means folding the prefix, then taking one step |
| `ParserProperties.StepOutcome` | src/parser.cpp:12-38 | a step succeeds exactly when its expression evaluates and its tag is And, Or or None; otherwise it fails with the expression's error, or with the unsupported-operation error when only the tag is wrong |
| `ParserProperties.FoldFirstError` | src/parser.cpp:10-40 | there is no short-circuit: whatever the accumulator, evaluation fails with the first failing sub-expression's error, and within it the expression error comes before the tag error |
| `ParserProperties.NoneDiscardsPrefix` | src/parser.cpp:34-35 | a None tag at position `i` discards everything before it: the result is the fold of the rest from any seed |
| `ParserProperties.NotTagFails` | src/parser.cpp:37-38 | a Not tag anywhere makes evaluation fail; with no earlier failure, the error is that sub-expression's own error or the unsupported-operation error |
| `ParserProperties.ThreeStepsFoldLeft` | src/parser.cpp:10-40 | with no precedence, `A And B Or C` evaluates as `(A and B) or C` |
| `ParserProperties.SingleEqualIff` | src/parser.cpp:14-15 | a single `key == literal` with a non-double literal is true exactly when the key's value equals the literal in variant and payload |
| `ParserProperties.ReplacementSeenWithoutRecompiling` | src/parser.cpp:8 | a predicate compiled once answers for the replaced value on its next call: `true` or `false` for a value of the same variant, a type mismatch for one of another variant |
| `Scenarios.ExampleProgram` | example/basic.cpp:6-21 | `[(A > 10) None, (B < 20) And]` over `{A: 15, B: 15}` is true |
| `Scenarios.MixedArithmeticPromotes` | test/test_chatgpt.cpp:53-61 | `(x + y) >= 5.0` with a double and an int succeeds, and its outcome is the platform's double comparison of the promoted sum |
| `Scenarios.MultiplyThenCompare` | test/test_chatgpt.cpp:135-146 | `(k0 * k1) == 42` is true for 7 and 6, and false once `k0` is 8, with the same predicate |
| `Scenarios.IntDivisionByZero` | test/test_chatgpt.cpp:89-101 | `(x / y) == 0` with `y = 0` fails with division by zero |
| `Scenarios.MissingKey` | test/test_chatgpt.cpp:113-119 | a key name absent from the record fails with that name |
| `Scenarios.StringLexicographic` | test/test_chatgpt.cpp:64-73 | `name < "z"` is true for "mango" and false for "zzz" |
| `Scenarios.AndOrChaining` | test/test_chatgpt.cpp:75-87 | `[(a == 1) And, (b == 2) Or, (a != 0) None]` over any integer record `{a, b}` gives `a != 0` alone, because the trailing None discards the first two results; the test's record `{a: 1, b: 2}` gives true |
| `Scenarios.IntAgainstText` | test/test_chatgpt.cpp:103-111 | an int key compared with a string literal is a type mismatch |
| `Scenarios.BoolEqualityOnly` | test/test_chatgpt.cpp:121-133 | a boolean key supports `==` but fails on `>` |

## Left out

- IEEE-754 semantics (NaN, signed zero, rounding, infinities): the float operations are
  parameters, so no numeric fact about doubles is proved. The mixed-arithmetic scenario is
  decided at the level of variants and errors.
- The "Unknown expression type", "Unsupported arithmetic operation", "Unsupported comparison
  operation" and "Unsupported type for comparison" branches: matches over the closed
  datatypes make them impossible, so there is nothing to model.
- Exception message texts: each message is replaced by an `Error` variant.
- `getValueFromKeyMap` (include/parser.h:21): declared but never defined.
- The `DataTypes` enumeration (include/enums.h:26-31): never used.
- `Evaluator` (include/evaluator.h): a one-line delegate around `std::function`. Calling it
  before `initialize` fails inside the C++ library.
- The example program's console output and the benchmark harnesses, with their random key
  generation and timing.
- Concurrency: evaluation is a pure function of its inputs, so calls from several threads
  cannot interfere in the model.
