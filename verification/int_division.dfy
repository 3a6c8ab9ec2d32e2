/** Integer division as the source's `/` on signed integers computes it: the quotient is
    truncated toward zero, unlike Dafny's Euclidean `/`.

    The proofs below keep every step that needs a product apart from the steps that
    need `/` and `%`: the helpers take the quotient and remainder of the magnitudes as
    plain parameters, so each obligation is either linear or a single product law. */
module IntDivision {

  function Abs(x: int): nat {
    if x < 0 then -x else x
  }

  /** The quotient of `a / b` rounded toward zero; `TruncDivIsTruncation` states what it means. */
  function TruncDiv(a: int, b: int): int
    requires b != 0
  {
    var m := Abs(a) / Abs(b);
    if (a < 0) == (b < 0) then m else -m
  }

  /** The remainder `a - q * b` is smaller than the divisor in magnitude and is zero or
      has the sign of the dividend, the quotient's magnitude is the quotient of the
      magnitudes, and the quotient is negative only when the operands' signs differ. */
  lemma TruncDivIsTruncation(a: int, b: int)
    requires b != 0
    ensures var q := TruncDiv(a, b);
      && Abs(a - q * b) < Abs(b)
      && (a - q * b == 0 || (a - q * b < 0 <==> a < 0))
      && Abs(q) == Abs(a) / Abs(b)
      && (q == 0 || (q < 0 <==> (a < 0) != (b < 0)))
  {
    var m, rem := DivMod(Abs(a), Abs(b));
    var q := TruncDiv(a, b);
    SignedDivision(a, b, m, rem, q);
    RemainderBounds(a, b, m, rem, q, a - q * b);
  }

  /** The quotient and remainder of naturals, named so that later steps need not mention
      `/` or `%`. The first postcondition only names them and is a proof aid, not a
      property; the second is the division identity and the remainder's range. */
  lemma DivMod(x: nat, y: nat) returns (m: int, rem: int)
    requires y > 0
    ensures m == x / y && rem == x % y
    ensures x == m * y + rem && 0 <= rem < y && m >= 0
  {
    m, rem := x / y, x % y;
  }

  /** Giving the quotient of the magnitudes the sign rule of `TruncDiv` turns the division
      identity of the magnitudes into the signed one. */
  lemma SignedDivision(a: int, b: int, m: int, rem: int, q: int)
    requires b != 0
    requires Abs(a) == m * Abs(b) + rem
    requires q == if (a < 0) == (b < 0) then m else -m
    ensures a - q * b == if a < 0 then -rem else rem
  {
    MulNegate(m, Abs(b));
    if b < 0 {
      assert -b == Abs(b);
    } else {
      assert b == Abs(b);
    }
  }

  /** The linear consequences of the signed division identity. */
  lemma RemainderBounds(a: int, b: int, m: int, rem: int, q: int, r: int)
    requires b != 0 && 0 <= rem < Abs(b) && m >= 0
    requires q == (if (a < 0) == (b < 0) then m else -m)
    requires r == (if a < 0 then -rem else rem)
    ensures Abs(r) < Abs(b)
    ensures r == 0 || (r < 0 <==> a < 0)
    ensures Abs(q) == m
    ensures q == 0 || (q < 0 <==> (a < 0) != (b < 0))
  {
  }

  lemma MulNegate(m: int, y: int)
    ensures m * (-y) == -(m * y)
    ensures (-m) * y == -(m * y)
    ensures (-m) * (-y) == m * y
  {
  }

  /** Multiplying by a natural number is monotone in the other factor. */
  lemma MulMonotone(m: nat, y: nat, z: nat)
    requires z <= y
    ensures m * z <= m * y
  {
    assert m * y == m * z + m * (y - z);
  }

  /** A divisor of magnitude at least 2 at least halves the dividend. */
  lemma TruncDivHalves(a: int, b: int)
    requires Abs(b) >= 2
    ensures 2 * Abs(TruncDiv(a, b)) <= Abs(a)
  {
    var m, rem := DivMod(Abs(a), Abs(b));
    HalvingBound(Abs(a), Abs(b), m, rem);
  }

  lemma HalvingBound(x: int, y: int, m: int, rem: int)
    requires y >= 2 && m >= 0 && rem >= 0 && x == m * y + rem
    ensures 2 * m <= x
  {
    MulMonotone(m, y, 2);
  }

  /** Dividing an exact product by one of its factors gives back the other factor. */
  lemma TruncDivOfProduct(a: int, b: int)
    requires b != 0
    ensures TruncDiv(a * b, b) == a
  {
    var x, y := Abs(a), Abs(b);
    ProductMagnitudeAndSign(a, b);
    var m, rem := DivMod(Abs(a * b), y);
    ExactQuotient(x, y, m, rem);
  }

  lemma ProductMagnitudeAndSign(a: int, b: int)
    requires b != 0
    ensures Abs(a * b) == Abs(a) * Abs(b)
    ensures a * b < 0 <==> (a < 0 && b > 0) || (a > 0 && b < 0)
  {
    MulNegate(a, b);
    if a > 0 && b > 0 {
      MulMonotone(a, b, 1);
    } else if a < 0 && b > 0 {
      MulMonotone(-a, b, 1);
    } else if a > 0 && b < 0 {
      MulMonotone(a, -b, 1);
    } else if a < 0 && b < 0 {
      MulMonotone(-a, -b, 1);
    }
  }

  /** The quotient of `x * y` by `y` is `x`: the division identity leaves no room for
      any other quotient. */
  lemma ExactQuotient(x: nat, y: nat, m: int, rem: int)
    requires y > 0 && x * y == m * y + rem && 0 <= rem < y
    ensures m == x
  {
    assert (x - m) * y == rem;
    SmallMultipleIsZero(x - m, y);
  }

  lemma SmallMultipleIsZero(k: int, y: int)
    requires y > 0 && 0 <= k * y < y
    ensures k == 0
  {
    if k >= 1 {
      MulMonotone(y, k, 1);
    }
  }
}
