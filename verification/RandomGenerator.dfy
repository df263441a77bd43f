/** The runtime's linear congruential generator: its period is full, so over
  * one period `Random` takes each of its values. */
module RandomGenerator {
  import opened Bits

  const MULTIPLIER := 1664525
  const INCREMENT := 1013904223
  const STATES := 0x1_0000_0000

  /** The recurrence on unbounded integers, `n` steps from `x`. */
  function Iterate(x: int, n: nat): int {
    if n == 0 then x else MULTIPLIER * Iterate(x, n - 1) + INCREMENT
  }

  /** The state after `n` steps of the generator modulo `2^k`. */
  function StateAfter(k: nat, x: int, n: nat): (s: nat)
    ensures s < Pow2(k)
  {
    Iterate(x, n) % Pow2(k)
  }

  /** `1 + a + ... + a^(n-1)` for the multiplier `a`. */
  function Geometric(n: nat): nat {
    if n == 0 then 0 else MULTIPLIER * Geometric(n - 1) + 1
  }

  predicate Divides(d: int, x: int)
    requires d != 0
  {
    x % d == 0
  }

  lemma {:induction false} IterateSplit(x: int, n: nat, m: nat)
    ensures Iterate(x, n + m) == Iterate(Iterate(x, n), m)
    decreases m
  {
    if m > 0 {
      IterateSplit(x, n, m - 1);
    }
  }

  /** How far `n` steps move the state. */
  lemma {:induction false} IterateMoves(x: int, n: nat)
    ensures Iterate(x, n) - x == Geometric(n) * ((MULTIPLIER - 1) * x + INCREMENT)
  {
    if n > 0 {
      IterateMoves(x, n - 1);
      var d := (MULTIPLIER - 1) * x + INCREMENT;
      assert Iterate(x, n) - x == MULTIPLIER * (Geometric(n - 1) * d) + d;
      assert (MULTIPLIER * Geometric(n - 1) + 1) * d == MULTIPLIER * (Geometric(n - 1) * d) + d;
    }
  }

  lemma {:induction false} GeometricParity(n: nat)
    ensures Geometric(n) % 2 == n % 2
  {
    if n > 0 {
      GeometricParity(n - 1);
      var g := Geometric(n - 1);
      assert Geometric(n) == 2 * (832262 * g) + g + 1;
    }
  }

  lemma GeometricSplitStep(a: int, sm: int, sn: int)
    ensures (a * sm + 1) * (1 + (a - 1) * sn) + sn == a * (sm * (1 + (a - 1) * sn) + sn) + 1
  {
    var g := 1 + (a - 1) * sn;
    assert (a * sm + 1) * g == a * sm * g + g;
    assert a * (sm * g + sn) == a * (sm * g) + a * sn;
    assert a * sm * g == a * (sm * g);
    assert (a - 1) * sn == a * sn - sn;
  }

  lemma {:induction false} GeometricSplit(m: nat, n: nat)
    ensures Geometric(m + n) == Geometric(m) * (1 + (MULTIPLIER - 1) * Geometric(n)) + Geometric(n)
    decreases m
  {
    if m > 0 {
      GeometricSplit(m - 1, n);
      GeometricSplitStep(MULTIPLIER, Geometric(m - 1), Geometric(n));
    }
  }

  lemma DoubleStep(g: int, c: int)
    ensures g * (1 + 2 * c * g) + g == 2 * (g * (1 + c * g))
  {
    assert g * (1 + 2 * c * g) == g + g * (2 * c * g);
    assert g * (1 + c * g) == g + g * (c * g);
    assert g * (2 * c * g) == 2 * (g * (c * g));
  }

  /** Doubling the count doubles the sum, up to an odd factor. */
  lemma GeometricDouble(m: nat) returns (odd: int)
    ensures odd % 2 == 1 && Geometric(2 * m) == 2 * (Geometric(m) * odd)
  {
    GeometricSplit(m, m);
    var g := Geometric(m);
    odd := 1 + 2 * (416131 * g);
    DoubleStep(g, 832262);
  }

  lemma OddProduct(x: int, odd: int)
    requires odd % 2 == 1
    ensures x * odd % 2 == x % 2
  {
    var h := odd / 2;
    assert odd == 2 * h + 1;
    assert x * odd == 2 * (x * h) + x;
  }

  lemma HalveDivides(d: int, x: int)
    requires d > 0
    ensures Divides(2 * d, 2 * x) <==> Divides(d, x)
  {
    ModUnique(2 * x, x / d, 2 * (x % d), 2 * d);
  }

  lemma DividesEven(d: int, x: int)
    requires d > 0 && Divides(2 * d, x)
    ensures x % 2 == 0
  {
    var q := x / (2 * d);
    assert x == q * (2 * d);
    assert q * (2 * d) == 2 * (q * d);
  }

  /** An odd factor does not help a power of two divide. */
  lemma {:induction false} DividesOddMultiple(k: nat, x: int, odd: int)
    requires odd % 2 == 1
    ensures Divides(Pow2(k), x * odd) <==> Divides(Pow2(k), x)
    decreases k
  {
    if k > 0 {
      OddProduct(x, odd);
      if x % 2 == 0 {
        var y := x / 2;
        assert x * odd == 2 * (y * odd);
        DividesOddMultiple(k - 1, y, odd);
        HalveDivides(Pow2(k - 1), y * odd);
        HalveDivides(Pow2(k - 1), y);
      } else {
        OddNotDivided(k, x);
        OddNotDivided(k, x * odd);
      }
    }
  }

  lemma OddNotDivided(k: nat, x: int)
    requires k > 0 && x % 2 == 1
    ensures !Divides(Pow2(k), x)
  {
    if Divides(Pow2(k), x) {
      DividesEven(Pow2(k - 1), x);
    }
  }

  /** The sum of `n` powers is divisible by `2^k` exactly when `n` is. */
  lemma {:induction false} GeometricDivisible(k: nat, n: nat)
    ensures Divides(Pow2(k), Geometric(n)) <==> Divides(Pow2(k), n)
    decreases k
  {
    if k > 0 {
      GeometricParity(n);
      if n % 2 == 1 {
        OddNotDivided(k, n);
        OddNotDivided(k, Geometric(n));
      } else {
        var m := n / 2;
        var odd := GeometricDouble(m);
        HalveDivides(Pow2(k - 1), Geometric(m) * odd);
        DividesOddMultiple(k - 1, Geometric(m), odd);
        GeometricDivisible(k - 1, m);
        HalveDivides(Pow2(k - 1), m);
      }
    }
  }

  lemma SameResidue(x: int, y: int, m: int)
    requires m > 0
    ensures x % m == y % m <==> Divides(m, x - y)
  {
    assert x == x / m * m + x % m && y == y / m * m + y % m;
    if Divides(m, x - y) {
      var q := (x - y) / m;
      assert x == y + q * m;
      ModShift(y, q, m);
    }
    if x % m == y % m {
      assert x - y == (x / m - y / m) * m;
      ModUnique(x - y, x / m - y / m, 0, m);
    }
  }

  /** The generator modulo `2^k` is back where it started exactly at multiples of `2^k` steps. */
  lemma Period(k: nat, x: int, n: nat)
    ensures StateAfter(k, x, n) == x % Pow2(k) <==> n % Pow2(k) == 0
  {
    var d := (MULTIPLIER - 1) * x + INCREMENT;
    IterateMoves(x, n);
    SameResidue(Iterate(x, n), x, Pow2(k));
    DividesOddMultiple(k, Geometric(n), d);
    GeometricDivisible(k, n);
  }

  /** No state repeats within a period. */
  lemma NoRepeat(k: nat, x: int, n: nat, m: nat)
    requires n < m
    ensures StateAfter(k, x, n) == StateAfter(k, x, m) <==> (m - n) % Pow2(k) == 0
  {
    IterateSplit(x, n, m - n);
    Period(k, Iterate(x, n), m - n);
  }

  /** Every state is reached within one period. */
  lemma {:induction false} Reached(k: nat, x: int, y: int) returns (n: nat)
    ensures n < Pow2(k) && StateAfter(k, x, n) == y % Pow2(k)
    decreases k
  {
    n := 0;
    if k > 0 {
      var p := Pow2(k - 1);
      n := Reached(k - 1, x, y);
      SameResidue(Iterate(x, n), y, p);
      if StateAfter(k, x, n) != y % Pow2(k) {
        NoRepeat(k, x, n, n + p);
        NoRepeat(k - 1, x, n, n + p);
        WrapId(k, p);
        ModUnique(p, 1, 0, p);
        OtherHalf(p, Iterate(x, n), Iterate(x, n + p), y);
        n := n + p;
      }
    }
  }

  /** Two numbers that agree modulo `p` but not modulo `2p` cover both classes. */
  lemma OtherHalf(p: int, a: int, b: int, y: int)
    requires p > 0 && a % p == y % p && b % p == a % p
    requires a % (2 * p) != y % (2 * p) && b % (2 * p) != a % (2 * p)
    ensures b % (2 * p) == y % (2 * p)
  {
    Halves(p, a);
    Halves(p, b);
    Halves(p, y);
  }

  lemma Halves(p: int, a: int)
    requires p > 0
    ensures a % (2 * p) == a % p || a % (2 * p) == a % p + p
  {
    HalvesOf(p, a, a / p, a % p, a / p / 2);
  }

  lemma HalvesOf(p: int, a: int, q: int, r: int, h: int)
    requires p > 0 && a == q * p + r && 0 <= r < p && (q == 2 * h || q == 2 * h + 1)
    ensures a % (2 * p) == r || a % (2 * p) == r + p
  {
    if q == 2 * h {
      assert q * p == h * (2 * p);
      ModUnique(a, h, r, 2 * p);
    } else {
      assert q * p == h * (2 * p) + p;
      ModUnique(a, h, r + p, 2 * p);
    }
  }

  /** Full period: each of the `2^k` states occurs exactly once among any `2^k` successive ones. */
  lemma FullPeriod(k: nat, x: int, y: nat)
    requires y < Pow2(k)
    ensures exists n: nat :: n < Pow2(k) && StateAfter(k, x, n) == y
    ensures forall n: nat, m: nat | n < Pow2(k) && m < Pow2(k) && StateAfter(k, x, n) == y == StateAfter(k, x, m) :: n == m
    ensures StateAfter(k, x, Pow2(k)) == x % Pow2(k)
  {
    var n := Reached(k, x, y);
    WrapId(k, y);
    forall n: nat, m: nat | n < m && n < Pow2(k) && m < Pow2(k)
      ensures StateAfter(k, x, n) != StateAfter(k, x, m)
    {
      NoRepeat(k, x, n, m);
      WrapId(k, m - n);
    }
    Period(k, x, Pow2(k));
    ModUnique(Pow2(k), 1, 0, Pow2(k));
  }

  // ---- the runtime's generator ----

  lemma Pow2Of32()
    ensures Pow2(32) == STATES && Pow2(64) == STATES * STATES
  {
    assert Pow2(8) == 256;
    Pow2Add(8, 8);
    Pow2Add(16, 16);
    Pow2Add(32, 32);
  }

  /** `Random(range)` from state `s`: a widening multiply in 64 bits, shifted
    * down, on the magnitude of the range. */
  function Scaled(s: nat, range: int): (v: int)
    requires s < STATES && -0x8000_0000_0000_0000 < range < 0x8000_0000_0000_0000
  {
    var magnitude := Wrap(64, s * (if range < 0 then -range else range)) / STATES;
    if range < 0 then -magnitude else magnitude
  }

  function Magnitude(x: int): nat { if x < 0 then -x else x }

  lemma MulOrder(x: int, y: int, c: int)
    requires c > 0
    ensures x * c < y * c ==> x < y
    ensures x <= y ==> x * c <= y * c
  {
  }

  lemma QuotientBelow(a: int, b: int, c: int)
    requires a >= 0 && c > 0 && a < b * c
    ensures 0 <= a / c < b
  {
    assert a == a / c * c + a % c;
    MulOrder(a / c, b, c);
  }

  /** Strictly inside the range, on the range's own side of zero. */
  lemma ScaledInRange(s: nat, range: int)
    requires s < STATES && -0x8000_0000_0000_0000 < range < 0x8000_0000_0000_0000 && range != 0
    ensures range > 0 ==> 0 <= Scaled(s, range) < range
    ensures range < 0 ==> range < Scaled(s, range) <= 0
  {
    Pow2Of32();
    var r := Magnitude(range);
    var p := Wrap(64, s * r);
    if r >= STATES {
      QuotientBelow(p, STATES, STATES);
    } else {
      assert s * r < STATES * r;
      assert STATES * r <= STATES * STATES;
      WrapId(64, s * r);
      QuotientBelow(s * r, r, STATES);
    }
  }

  /** The result is the exact proportion of the range just when the 64-bit product does not wrap. */
  lemma ScaledProportional(s: nat, range: int)
    requires s < STATES && -0x8000_0000_0000_0000 < range < 0x8000_0000_0000_0000
    ensures Magnitude(Scaled(s, range)) == s * Magnitude(range) / STATES <==> s * Magnitude(range) < STATES * STATES
  {
    Pow2Of32();
    var r := Magnitude(range);
    if s * r < STATES * STATES {
      WrapId(64, s * r);
    } else {
      QuotientBelow(Wrap(64, s * r), STATES, STATES);
      assert s * r / STATES >= STATES;
    }
    assert Magnitude(Scaled(s, range)) == Wrap(64, s * r) / STATES;
  }

  /** The largest product an exact proportion allows. */
  lemma TopProduct(r: nat)
    ensures (STATES - 1) * r < STATES * STATES <==> r <= STATES + 1
  {
  }

  /** From every state the result is the proportion exactly when the range is no
    * larger than 2^32 + 1. */
  lemma {:induction false} RangeProportional(range: int)
    requires -0x8000_0000_0000_0000 < range < 0x8000_0000_0000_0000
    ensures (forall s: nat | s < STATES :: Magnitude(Scaled(s, range)) == s * Magnitude(range) / STATES)
            <==> Magnitude(range) <= STATES + 1
  {
    hide Scaled;
    var r := Magnitude(range);
    TopProduct(r);
    if r <= STATES + 1 {
      forall s: nat | s < STATES
        ensures Magnitude(Scaled(s, range)) == s * r / STATES
      {
        if r > 0 {
          MulOrder(s, STATES - 1, r);
        }
        ScaledProportional(s, range);
      }
    }
    ScaledProportional(STATES - 1, range);
  }

  /** A range of 2^32 + 2 draws 0 from the last state, and not 2^32. */
  lemma {:induction false} WideRangeWraps()
    ensures Scaled(STATES - 1, STATES + 2) == 0 && (STATES - 1) * (STATES + 2) / STATES == STATES
  {
    Pow2Of32();
    ModUnique((STATES - 1) * (STATES + 2), 1, STATES - 2, STATES * STATES);
  }

  lemma RoundUp(x: nat, r: int) returns (q: nat)
    requires r > 0
    ensures x <= q * r < x + r
  {
    q := (x + r - 1) / r;
    assert x + r - 1 == q * r + (x + r - 1) % r;
  }

  /** The least state that scales to `v`. */
  lemma StateFor(range: int, v: int) returns (s: nat)
    requires 0 < range <= STATES && 0 <= v < range
    ensures s < STATES && Scaled(s, range) == v
  {
    s := RoundUp(v * STATES, range);
    assert v * STATES <= s * range < v * STATES + range;
    MulOrder(s, STATES, range);
    Pow2Of32();
    WrapId(64, s * range);
    ModUnique(s * range, v, s * range - v * STATES, STATES);
  }

  /** The values a nonzero range stands for. */
  predicate InsideRange(range: int, v: int) {
    if range > 0 then 0 <= v < range else range < v <= 0
  }

  /** `Random(range)` gives `v` somewhere in the period that starts at `x`. */
  ghost predicate Drawn(x: nat, range: int, v: int)
    requires -0x8000_0000_0000_0000 < range < 0x8000_0000_0000_0000
  {
    Pow2Of32();
    exists n: nat :: n < STATES && Scaled(StateAfter(32, x, n), range) == v
  }

  lemma {:induction false} DrawnUpTo(x: nat, range: int, v: int)
    requires range != 0 && Magnitude(range) <= STATES && InsideRange(range, v)
    ensures Drawn(x, range, v)
  {
    Pow2Of32();
    var s := StateFor(Magnitude(range), Magnitude(v));
    var n := Reached(32, x, s);
    WrapId(32, s);
    assert Scaled(StateAfter(32, x, n), range) == v;
  }

  lemma {:induction false} ScaledBelow(s: nat, range: int)
    requires s < STATES && -0x8000_0000_0000_0000 < range < 0x8000_0000_0000_0000
    ensures Magnitude(Scaled(s, range)) < STATES
  {
    Pow2Of32();
    QuotientBelow(Wrap(64, s * Magnitude(range)), STATES, STATES);
  }

  /** Over one period `Random(range)` takes every value of the range exactly when there
    * are no more of them than states. */
  lemma {:induction false} RandomTakesEveryValue(x: nat, range: int)
    requires -0x8000_0000_0000_0000 < range < 0x8000_0000_0000_0000 && range != 0
    ensures (forall v | InsideRange(range, v) :: Drawn(x, range, v)) <==> Magnitude(range) <= STATES
  {
    if Magnitude(range) <= STATES {
      forall v | InsideRange(range, v)
        ensures Drawn(x, range, v)
      {
        DrawnUpTo(x, range, v);
      }
    } else {
      var v := if range > 0 then STATES else -STATES;
      Pow2Of32();
      forall n: nat
        ensures Magnitude(Scaled(StateAfter(32, x, n), range)) < STATES
      {
        ScaledBelow(StateAfter(32, x, n), range);
      }
      assert InsideRange(range, v) && !Drawn(x, range, v);
    }
  }

  class Generator {
    var randSeed: nat
    ghost var start: nat
    ghost var drawn: nat

    /** The state is the recurrence iterated once for every draw since the last seed. */
    ghost predicate Valid()
      reads this
    {
      Pow2Of32();
      randSeed < STATES && randSeed == StateAfter(32, start, drawn)
    }

    /** A program's own assignment to RandSeed, or Randomize with what the clock says. */
    method Seed(seed: nat)
      requires seed < STATES
      modifies this
      ensures Valid() && randSeed == start == seed && drawn == 0
    {
      Pow2Of32();
      WrapId(32, seed);
      randSeed, start, drawn := seed, seed, 0;
    }

    method Advance() returns (s: nat)
      requires Valid()
      modifies this
      ensures Valid() && start == old(start) && drawn == old(drawn) + 1
      ensures s == randSeed == StateAfter(32, start, drawn)
    {
      Pow2Of32();
      assert Iterate(randSeed, 1) == MULTIPLIER * Iterate(randSeed, 0) + INCREMENT;
      StepWraps(randSeed);
      StateAfterStep(start, drawn);
      randSeed := (randSeed * MULTIPLIER % STATES + INCREMENT) % STATES;
      drawn := drawn + 1;
      s := randSeed;
    }

    method RandomReal() returns (r: real)
      requires Valid()
      modifies this
      ensures Valid() && start == old(start) && drawn == old(drawn) + 1
      ensures 0.0 <= r < 1.0 && r * STATES as real == StateAfter(32, start, drawn) as real
    {
      var s := Advance();
      r := s as real / 4294967296.0;
    }

    method RandomRange(range: int) returns (v: int)
      requires Valid() && -0x8000_0000_0000_0000 < range < 0x8000_0000_0000_0000
      modifies this
      ensures Valid() && start == old(start) && drawn == old(drawn) + if range == 0 then 0 else 1
      ensures v == if range == 0 then 0 else Scaled(StateAfter(32, start, drawn), range)
    {
      if range == 0 {
        return 0;
      }
      var s := Advance();
      var neg := range < 0;
      var absRange := if neg then -range else range;
      Pow2Of32();
      var magnitude := s * absRange % (STATES * STATES) / STATES;
      v := if neg then -magnitude else magnitude;
    }
  }

  /** Wrapping after the product and again after the sum is wrapping once. */
  lemma StepWraps(x: int)
    ensures (x * MULTIPLIER % STATES + INCREMENT) % STATES == (MULTIPLIER * x + INCREMENT) % STATES
  {
    var p := x * MULTIPLIER;
    assert p + INCREMENT == p % STATES + INCREMENT + p / STATES * STATES;
    ModShift(p % STATES + INCREMENT, p / STATES, STATES);
  }

  lemma StateAfterStep(x: nat, n: nat)
    ensures StateAfter(32, StateAfter(32, x, n), 1) == StateAfter(32, x, n + 1)
  {
    var y := Iterate(x, n);
    var p := Pow2(32);
    assert Iterate(y % p, 1) == MULTIPLIER * Iterate(y % p, 0) + INCREMENT;
    assert MULTIPLIER * y + INCREMENT == MULTIPLIER * (y % p) + INCREMENT + MULTIPLIER * (y / p) * p;
    ModShift(MULTIPLIER * (y % p) + INCREMENT, MULTIPLIER * (y / p), p);
  }

  /** Each state comes from the one before by the generator's own two numbers. */
  lemma {:induction false} Recurrence(x: nat, n: nat)
    ensures StateAfter(32, x, n + 1) == (1664525 * StateAfter(32, x, n) + 1013904223) % 0x1_0000_0000
  {
    Pow2Of32();
    StateAfterStep(x, n);
    var y := StateAfter(32, x, n);
    assert Iterate(y, 1) == MULTIPLIER * Iterate(y, 0) + INCREMENT;
  }

  /** The first draws from seed 0. */
  lemma {:induction false} FirstStates()
    ensures StateAfter(32, 0, 1) == 1013904223
    ensures StateAfter(32, 0, 2) == 1196435762
    ensures StateAfter(32, 0, 3) == 3519870697
  {
    Pow2Of32();
    Recurrence(0, 0);
    Recurrence(0, 1);
    Recurrence(0, 2);
    assert StateAfter(32, 0, 0) == 0;
    hide StateAfter;
    ModUnique(1664525 * 1013904223 + 1013904223, 392941, 1196435762, 0x1_0000_0000);
    ModUnique(1664525 * 1196435762 + 1013904223, 463681, 3519870697, 0x1_0000_0000);
  }
}
