/** The four-variant value type and the named key that holds one. */
module Values {

  const INT64_MIN: int := -0x8000_0000_0000_0000
  const INT64_MAX: int := 0x7FFF_FFFF_FFFF_FFFF

  predicate InInt64(x: int) {
    INT64_MIN <= x <= INT64_MAX
  }

  /** A signed 64-bit integer. */
  type Int64 = x: int | InInt64(x)

  /** A double-precision float, kept as its 64-bit pattern. The model never interprets
      the bits: every operation on floats goes through a `FloatSemantics`. */
  datatype Double = Double(bits: bv64)

  /** The platform's floating-point operations, left uninterpreted: `fromInt` is the
      conversion from a 64-bit integer, `eq`, `lt` and `le` are the floating-point
      `==`, `<` and `<=`, and `zero` is the literal 0.0. There are no fields for `!=`,
      `>` and `>=`: the comparison takes them to be `!eq(l, r)`, `lt(r, l)` and
      `le(r, l)`, as IEEE-754 comparisons are. */
  datatype FloatSemantics = FloatSemantics(
    zero: Double,
    fromInt: Int64 -> Double,
    add: (Double, Double) -> Double,
    sub: (Double, Double) -> Double,
    mul: (Double, Double) -> Double,
    div: (Double, Double) -> Double,
    eq: (Double, Double) -> bool,
    lt: (Double, Double) -> bool,
    le: (Double, Double) -> bool)

  /** Converting the integer 0 gives a float equal to 0.0. Only the lemmas that say so
      assume it. */
  predicate ZeroConvertsExactly(fs: FloatSemantics) {
    fs.eq(fs.fromInt(0), fs.zero)
  }

  /** A value is exactly one of: a 64-bit integer, a double, a string or a boolean. */
  datatype Value = Int(intVal: Int64) | Float(floatVal: Double) | Text(textVal: string) | Bool(boolVal: bool) {

    /** The position of the active alternative, in declaration order. */
    function Index(): nat {
      match this
      case Int(_) => 0
      case Float(_) => 1
      case Text(_) => 2
      case Bool(_) => 3
    }

    predicate IsNumeric() {
      Int? || Float?
    }
  }

  /** A named value slot. The name is fixed when the key is built; the value can be
      replaced as a whole, by a value of any variant. */
  datatype Key = Key(name: string, value: Value) {

    function GetName(): string {
      name
    }

    function GetValue(): Value {
      value
    }

    /** The key with its value replaced by `v`. */
    function SetValue(v: Value): (k: Key)
      ensures k.GetValue() == v
      ensures k.GetName() == GetName()
    {
      Key(name, v)
    }
  }

  /** The record `keys` after `keys[i].setValue(v)`. */
  function SetValueAt(keys: seq<Key>, i: nat, v: Value): (keys': seq<Key>)
    requires i < |keys|
    ensures |keys'| == |keys|
    ensures keys'[i].GetValue() == v
    ensures forall j :: 0 <= j < |keys| ==> keys'[j].GetName() == keys[j].GetName()
    ensures forall j :: 0 <= j < |keys| && j != i ==> keys'[j] == keys[j]
  {
    keys[i := keys[i].SetValue(v)]
  }
}
