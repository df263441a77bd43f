/** Integer exponentiation of the runtime, checked for overflow. */
module IntPower {
  function Pow(b: int, e: nat): int {
    if e == 0 then 1 else b * Pow(b, e - 1)
  }

  const INT64_MAX: int := 0x7fff_ffff_ffff_ffff
  const INT64_MIN: int := -0x8000_0000_0000_0000

  predicate InInt64(x: int) { INT64_MIN <= x <= INT64_MAX }

  datatype PowResult =
    | Power(v: int)
    | NegativeExponent
    | ZeroToTheZero
    | Overflow

  lemma MulPositive(a: int, k: int)
    requires k >= 1
    ensures a >= 0 ==> a * k >= a
    ensures a <= 0 ==> a * k <= a
    ensures a != 0 ==> a * k != 0
  {
  }

  lemma {:induction false} PowDouble(b: int, e: nat)
    ensures Pow(b, 2 * e) == Pow(b * b, e)
    decreases e
  {
    if e > 0 {
      PowDouble(b, e - 1);
      assert Pow(b, 2 * e) == b * (b * Pow(b, 2 * (e - 1)));
      assert b * (b * Pow(b, 2 * (e - 1))) == b * b * Pow(b, 2 * (e - 1));
    }
  }

  lemma {:induction false} PowAtLeast(b: int, e: nat)
    requires b >= 1
    ensures Pow(b, e) >= 1 && (e >= 1 ==> Pow(b, e) >= b)
  {
    if e > 0 {
      PowAtLeast(b, e - 1);
      MulPositive(b, Pow(b, e - 1));
    }
  }

  lemma SquarePositive(b: int)
    requires b != 0
    ensures b * b >= 1
  {
  }

  /** No square is exactly `2^63`. */
  lemma SquareGap(b: int)
    ensures b * b != 0x8000_0000_0000_0000
  {
    var a := if b < 0 then -b else b;
    assert a * a == b * b;
    if a <= 3037000499 {
      assert a * a <= 3037000499 * 3037000499;
    } else {
      assert a * a >= 3037000500 * 3037000500;
    }
  }

  /** One factor taken off an odd power: what is left is a positive power of a square. */
  lemma OddStep(r: int, b: int, e: nat)
    requires e % 2 == 1
    ensures r * Pow(b, e) == r * b * Pow(b * b, e / 2)
    ensures b != 0 && !InInt64(r * b) ==> !InInt64(r * Pow(b, e))
  {
    PowDouble(b, e / 2);
    var k := Pow(b * b, e / 2);
    assert Pow(b, e) == b * k;
    assert r * (b * k) == r * b * k;
    if b != 0 {
      SquarePositive(b);
      PowAtLeast(b * b, e / 2);
      MulPositive(r * b, k);
    }
  }

  lemma EvenStep(r: int, b: int, e: nat)
    requires e % 2 == 0
    ensures r * Pow(b, e) == r * Pow(b * b, e / 2)
  {
    PowDouble(b, e / 2);
  }

  /** A square that overflows can only belong to a power that overflows. */
  lemma SquareStep(r: int, b: int, e: nat)
    requires e >= 1 && r != 0 && !InInt64(b * b)
    ensures !InInt64(r * Pow(b * b, e))
  {
    SquareGap(b);
    var q := b * b;
    SquarePositive(b);
    PowAtLeast(q, e);
    var p := Pow(q, e);
    if r > 0 {
      MulPositive(p, r);
    } else {
      MulPositive(p, -r);
      assert p * -r == -(r * p);
    }
  }

  /** Square-and-multiply with every product checked returns the exact power
    * when it is representable, `(-2)^63` included, and reports overflow
    * exactly when it is not. */
  method IPow(base: int, exp: int) returns (res: PowResult)
    requires InInt64(base) && InInt64(exp)
    ensures res ==
            if exp < 0 then NegativeExponent
            else if base == 0 && exp == 0 then ZeroToTheZero
            else if InInt64(Pow(base, exp)) then Power(Pow(base, exp))
            else Overflow
  {
    if exp < 0 {
      return NegativeExponent;
    }
    if base == 0 && exp == 0 {
      return ZeroToTheZero;
    }
    var result, b, e: nat := 1, base, exp;
    while e > 0
      invariant result * Pow(b, e) == Pow(base, exp)
      invariant InInt64(result)
      invariant b == 0 || result != 0
      invariant b != 0 || e > 0 || result == Pow(base, exp)
    {
      ghost var (r0, b0, e0) := (result, b, e);
      if e % 2 == 1 {
        OddStep(result, b, e);
        if !InInt64(result * b) {
          assert b != 0;
          return Overflow;
        }
        result := result * b;
      } else {
        EvenStep(result, b, e);
      }
      e := e / 2;
      if e != 0 {
        if !InInt64(b * b) {
          assert b != 0;
          assert result != 0;
          SquareStep(result, b, e);
          return Overflow;
        }
        b := b * b;
      }
    }
    return Power(result);
  }
}
