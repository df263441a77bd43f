/** Two's-complement integers of a given width, as unbounded integers: the
  * bit pattern of a `w`-bit value is a natural number below `Pow2(w)`. */
module Bits {

  function Pow2(n: nat): (p: int)
    ensures p >= 1
  {
    if n == 0 then 1 else 2 * Pow2(n - 1)
  }

  /** The low `w` bits of `x`. */
  function Wrap(w: nat, x: int): (b: nat)
    ensures b < Pow2(w)
  {
    x % Pow2(w)
  }

  /** A bit pattern read as a signed number. */
  function Signed(w: nat, b: nat): int
    requires w >= 1
  {
    if b >= Pow2(w - 1) then b - Pow2(w) else b
  }

  /** A bit pattern read with the signedness of its type. */
  function Interpret(signed: bool, w: nat, b: nat): int
    requires w >= 1
  {
    if signed then Signed(w, b) else b
  }

  /** The values an ordinal of this width and signedness can hold. */
  predicate InRange(signed: bool, w: nat, v: int)
    requires w >= 1
  {
    if signed then -Pow2(w - 1) <= v < Pow2(w - 1) else 0 <= v < Pow2(w)
  }

  lemma {:induction false} Pow2Add(a: nat, b: nat)
    ensures Pow2(a + b) == Pow2(a) * Pow2(b)
  {
    if a == 0 {
    } else {
      Pow2Add(a - 1, b);
      assert Pow2(a) * Pow2(b) == 2 * (Pow2(a - 1) * Pow2(b));
    }
  }

  lemma {:induction false} Pow2Monotone(a: nat, b: nat)
    requires a <= b
    ensures Pow2(a) <= Pow2(b)
    decreases b
  {
    if a < b {
      Pow2Monotone(a, b - 1);
    }
  }

  lemma MultipleBound(d: int, m: int)
    requires m > 0
    ensures d >= 1 ==> d * m >= m
    ensures d <= -1 ==> d * m <= -m
  {
  }

  /** Quotient and remainder are unique. */
  lemma ModUnique(x: int, q: int, r: int, m: int)
    requires m > 0 && 0 <= r < m && x == q * m + r
    ensures x % m == r && x / m == q
  {
    var d := q - x / m;
    assert x == x / m * m + x % m;
    assert d * m == x % m - r by {
      assert q * m - x / m * m == d * m;
    }
    MultipleBound(d, m);
  }

  lemma ModShift(x: int, k: int, m: int)
    requires m > 0
    ensures (x + k * m) % m == x % m
  {
    var q := x / m;
    assert x + k * m == (q + k) * m + x % m;
    ModUnique(x + k * m, q + k, x % m, m);
  }

  lemma MulAssoc(a: int, b: int, c: int)
    ensures a * (b * c) == a * b * c
  {
  }

  lemma ModOfProduct(x: int, q: int, r: int, p: int, a: int, b: int)
    requires x == q * p + r && p == a * b && b > 0
    ensures x % b == r % b
  {
    MulAssoc(q, a, b);
    ModShift(r, q * a, b);
  }

  /** Truncation composes: keeping `n` bits and then `m <= n` keeps `m`. */
  lemma WrapWrap(n: nat, m: nat, x: int)
    requires m <= n
    ensures Wrap(m, Wrap(n, x)) == Wrap(m, x)
  {
    Pow2Add(n - m, m);
    ModOfProduct(x, x / Pow2(n), x % Pow2(n), Pow2(n), Pow2(n - m), Pow2(m));
  }

  lemma WrapId(w: nat, x: int)
    requires 0 <= x < Pow2(w)
    ensures Wrap(w, x) == x
  {
    ModUnique(x, 0, x, Pow2(w));
  }

  lemma WrapMinus(w: nat, x: int)
    requires -Pow2(w) <= x < 0
    ensures Wrap(w, x) == x + Pow2(w)
  {
    ModUnique(x, -1, x + Pow2(w), Pow2(w));
  }

  /** Reading a pattern and wrapping it again gives the pattern back. */
  lemma WrapInterpret(signed: bool, w: nat, b: nat)
    requires w >= 1 && b < Pow2(w)
    ensures Wrap(w, Interpret(signed, w, b)) == b
    ensures InRange(signed, w, Interpret(signed, w, b))
  {
    if signed && b >= Pow2(w - 1) {
      WrapMinus(w, b - Pow2(w));
    } else {
      WrapId(w, b);
    }
  }

  /** A value in range survives a trip through its bit pattern. */
  lemma InterpretWrap(signed: bool, w: nat, v: int)
    requires w >= 1 && InRange(signed, w, v)
    ensures Interpret(signed, w, Wrap(w, v)) == v
  {
    if v < 0 {
      WrapMinus(w, v);
    } else {
      WrapId(w, v);
    }
  }

  lemma AddSplit(a: int, b: int, qa: int, qb: int, ra: int, rb: int, m: int)
    requires a == qa * m + ra && b == qb * m + rb
    ensures a + b == ra + rb + (qa + qb) * m
    ensures a - b == ra - rb + (qa - qb) * m
  {
    assert (qa + qb) * m == qa * m + qb * m;
    assert (qa - qb) * m == qa * m - qb * m;
  }

  /** Wrapping is a congruence for the ring operations. */
  lemma WrapAdd(w: nat, a: int, b: int)
    ensures Wrap(w, Wrap(w, a) + Wrap(w, b)) == Wrap(w, a + b)
  {
    var m := Pow2(w);
    AddSplit(a, b, a / m, b / m, a % m, b % m, m);
    ModShift(a % m + b % m, a / m + b / m, m);
  }

  lemma WrapSub(w: nat, a: int, b: int)
    ensures Wrap(w, Wrap(w, a) - Wrap(w, b)) == Wrap(w, a - b)
  {
    var m := Pow2(w);
    AddSplit(a, b, a / m, b / m, a % m, b % m, m);
    ModShift(a % m - b % m, a / m - b / m, m);
  }

  lemma MulSplit(a: int, b: int, qa: int, qb: int, ra: int, rb: int, m: int)
    requires a == qa * m + ra && b == qb * m + rb
    ensures a * b == ra * rb + (qa * b + ra * qb) * m
  {
    calc {
      a * b;
      (qa * m + ra) * b;
      qa * m * b + ra * b;
      qa * m * b + ra * (qb * m + rb);
      qa * m * b + ra * (qb * m) + ra * rb;
      { assert qa * m * b == qa * b * m; assert ra * (qb * m) == ra * qb * m; }
      qa * b * m + ra * qb * m + ra * rb;
      { assert (qa * b + ra * qb) * m == qa * b * m + ra * qb * m; }
      ra * rb + (qa * b + ra * qb) * m;
    }
  }

  lemma WrapMul(w: nat, a: int, b: int)
    ensures Wrap(w, Wrap(w, a) * Wrap(w, b)) == Wrap(w, a * b)
  {
    var m := Pow2(w);
    MulSplit(a, b, a / m, b / m, a % m, b % m, m);
    ModShift(a % m * (b % m), a / m * b + a % m * (b / m), m);
  }
}
