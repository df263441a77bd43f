/** The truncated quotient and remainder, and what becomes of them when a value of
  * `h` or more is read as negative, as a signed instruction reads an unsigned one. */
module Quotients {
  import opened Bits

  function Abs(x: int): nat { if x < 0 then -x else x }

  lemma DivPositive(a: nat, b: nat)
    requires b > 0
    ensures a / b >= 0
  {
  }

  function Size(i: int, j: int): nat
    requires j != 0
  {
    DivPositive(Abs(i), Abs(j));
    Abs(i) / Abs(j)
  }

  /** The quotient, truncated toward zero. */
  function Quot(i: int, j: int): int
    requires j != 0
  {
    var q: int := Size(i, j);
    if (i < 0) == (j < 0) then q else -q
  }

  function Rem(i: int, j: int): int
    requires j != 0
  {
    i - Quot(i, j) * j
  }

  lemma DivMod(a: nat, b: nat)
    requires b > 0
    ensures a / b * b <= a < a / b * b + b
    ensures a - a / b * b == a % b
  {
  }

  lemma Signs(q: int, b: int)
    ensures -q * b == -(q * b) && q * -b == -(q * b) && -q * -b == q * b
  {
  }

  lemma AtLeast(q: nat, b: nat)
    ensures b > 0 ==> q <= q * b
    ensures b > 1 ==> 2 * q <= q * b
  {
    if b > 1 {
      assert q * b == 2 * q + q * (b - 2);
    }
  }

  /** The product a quotient makes has the dividend's sign. */
  lemma {:induction false} QuotTimes(i: int, j: int)
    requires j != 0
    ensures var qb := Size(i, j) * Abs(j); Quot(i, j) * j == if i < 0 then -qb else qb
    ensures Abs(Quot(i, j)) == Size(i, j)
  {
    hide Size;
    SignedProduct(Quot(i, j), j, Size(i, j), Abs(j), i < 0, j < 0);
  }

  lemma {:induction false} SignedProduct(x: int, y: int, q: int, b: int, s: bool, t: bool)
    requires x == (if s == t then q else -q) && y == if t then -b else b
    ensures x * y == if s then -(q * b) else q * b
  {
    Signs(q, b);
  }

  lemma SizeIs(i: int, j: int)
    requires j != 0
    ensures Size(i, j) * Abs(j) <= Abs(i) < Size(i, j) * Abs(j) + Abs(j)
  {
    DivMod(Abs(i), Abs(j));
  }

  /** What the standard asks of div (section 6.7.2.2 of ISO 7185), and the sign and
    * size of what it leaves. */
  lemma {:induction false} QuotIs(i: int, j: int)
    requires j != 0
    ensures Abs(i) - Abs(j) < Abs(Quot(i, j) * j) <= Abs(i)
    ensures Abs(Rem(i, j)) < Abs(j) && (i >= 0 ==> Rem(i, j) >= 0) && (i <= 0 ==> Rem(i, j) <= 0)
    ensures Abs(Quot(i, j)) <= Abs(i) && Abs(Rem(i, j)) <= Abs(i)
  {
    hide Quot, Size;
    QuotTimes(i, j);
    SizeIs(i, j);
    AtLeast(Size(i, j), Abs(j));
  }

  lemma {:induction false} RemIs(i: int, j: int)
    requires j != 0
    ensures Rem(i, j) == if i < 0 then 0 - Abs(i) % Abs(j) else Abs(i) % Abs(j)
  {
    QuotTimes(i, j);
    DivMod(Abs(i), Abs(j));
    hide Quot;
  }

  lemma {:induction false} SizeBetween(i: int, j: int, q: nat)
    requires j != 0 && q * Abs(j) <= Abs(i) < q * Abs(j) + Abs(j)
    ensures Size(i, j) == q
  {
    ModUnique(Abs(i), q, Abs(i) - q * Abs(j), Abs(j));
  }

  /** A dividend smaller than the divisor is what is left. */
  lemma {:induction false} Smaller(i: int, j: int)
    requires Abs(i) < Abs(j)
    ensures Quot(i, j) == 0 && Rem(i, j) == i
  {
    SizeBetween(i, j, 0);
  }

  // ---- the values a signed instruction reads ----

  /** A value of `h` or more comes out `2 * h` lower. */
  function ReadLow(h: nat, v: int): int { if v >= h then v - 2 * h else v }

  predicate Held(h: nat, v: int) { 0 - h <= v < 2 * h }

  /** Equal modulo `2 * h`. */
  predicate SameBits(h: nat, p: int, q: int)
    requires h > 0
  {
    p % (2 * h) == q % (2 * h)
  }

  lemma {:induction false} BitsDiffer(h: nat, p: int, q: int)
    requires h > 0 && -3 * h < p - q < 3 * h
    ensures SameBits(h, p, q) <==> p == q || p == q + 2 * h || p == q - 2 * h
  {
    var m := 2 * h;
    ModShift(q, 1, m);
    ModShift(q, -1, m);
    if SameBits(h, p, q) {
      var (a, b) := (p / m, q / m);
      assert p - q == (a - b) * m by {
        assert p == a * m + p % m && q == b * m + q % m;
        assert a * m - b * m == (a - b) * m;
      }
      var k := a - b;
      assert k >= 2 ==> k * m >= 2 * m;
      assert k <= -2 ==> k * m <= -2 * m;
      assert k * m == 0 || k * m == m || k * m == -m;
    }
  }

  /** Which quotients a signed division gets right: all of values below `h`; a low
    * dividend by a high divisor whose reading is still larger; a high dividend only
    * by 1, by -1, or by itself. */
  predicate DivRight(h: nat, v: int, d: int) {
    if v < h then d < h || Abs(v) + d < 2 * h
    else if d < h then Abs(d) == 1 else v == d
  }

  /** And which remainders. A high dividend needs a divisor that goes into it and into
    * `2 * h`, as then nothing is left either way. */
  predicate ModRight(h: nat, v: int, d: int)
    requires d != 0
  {
    if v < h then d < h || Abs(v) + d < 2 * h || v == 0 - d
    else if d < h then v % Abs(d) == 0 && 2 * h % Abs(d) == 0 else v == d
  }

  lemma {:induction false} LowByHigh(h: nat, v: int, d: int)
    requires h > 1 && 0 - h <= v < h <= d < 2 * h
    ensures SameBits(h, Quot(v, d - 2 * h), Quot(v, d)) <==> Abs(v) + d < 2 * h
    ensures SameBits(h, Rem(v, d - 2 * h), Rem(v, d)) <==> Abs(v) + d < 2 * h || v == 0 - d
  {
    hide Quot, Rem, Size, SameBits;
    var y := d - 2 * h;
    QuotIs(v, y);
    QuotIs(v, d);
    BitsDiffer(h, Quot(v, y), Quot(v, d));
    BitsDiffer(h, Rem(v, y), Rem(v, d));
    if Abs(v) + d < 2 * h {
      Smaller(v, y);
      Smaller(v, d);
    } else if v == 0 - d {
      Opposite(v, d);
      ItSelf(v);
    } else {
      Smaller(v, d);
      NotSmaller(v, y);
    }
  }

  lemma {:induction false} ItSelf(v: int)
    requires v != 0
    ensures Quot(v, v) == 1 && Rem(v, v) == 0
  {
    SizeBetween(v, v, 1);
  }

  lemma {:induction false} Opposite(v: int, d: int)
    requires v == 0 - d && d != 0
    ensures Quot(v, d) == -1 && Rem(v, d) == 0
  {
    SizeBetween(v, d, 1);
  }

  lemma {:induction false} NotSmaller(i: int, j: int)
    requires 0 < Abs(j) <= Abs(i)
    ensures Quot(i, j) != 0 && Rem(i, j) != i
  {
    hide Size, Quot;
    QuotTimes(i, j);
    SizeIs(i, j);
  }

  lemma {:induction false} HighByHigh(h: nat, v: int, d: int)
    requires h > 1 && h <= v < 2 * h && h <= d < 2 * h
    ensures SameBits(h, Quot(v - 2 * h, d - 2 * h), Quot(v, d)) <==> v == d
    ensures SameBits(h, Rem(v - 2 * h, d - 2 * h), Rem(v, d)) <==> v == d
  {
    hide Quot, Rem, Size, SameBits;
    var (x, y) := (v - 2 * h, d - 2 * h);
    QuotIs(x, y);
    QuotIs(v, d);
    BitsDiffer(h, Quot(x, y), Quot(v, d));
    BitsDiffer(h, Rem(x, y), Rem(v, d));
    if v == d {
      ItSelf(v);
      ItSelf(x);
    } else if v > d {
      Smaller(x, y);
      OnceIn(v, d);
    } else {
      Smaller(v, d);
      NotSmaller(x, y);
    }
  }

  lemma {:induction false} OnceIn(v: int, d: int)
    requires 0 < d <= v < 2 * d
    ensures Quot(v, d) == 1 && Rem(v, d) == v - d
  {
    SizeBetween(v, d, 1);
  }

  /** Both quotients together are the quotient of the whole, or one less. */
  lemma {:induction false} HighParts(h: nat, v: int, e: nat)
    requires h > 1 && h <= v < 2 * h && 0 < e <= h
    ensures var (s, t) := (Size(v - 2 * h, e), Size(v, e));
            0 < s + t <= 2 * h && (s + t == 2 * h <==> e == 1)
  {
    SizeIs(v - 2 * h, e);
    SizeIs(v, e);
    var (s, t) := (Size(v - 2 * h, e), Size(v, e));
    hide Size;
    AtLeast(s, e);
    AtLeast(t, e);
    if e == 1 {
      assert s * 1 == s && t * 1 == t;
    }
    assert t == 0 ==> t * e == 0;
  }

  lemma {:induction false} HighByLowQuot(h: nat, v: int, d: int)
    requires h > 1 && h <= v < 2 * h && 0 - h <= d < h && d != 0
    ensures SameBits(h, Quot(v - 2 * h, d), Quot(v, d)) <==> Abs(d) == 1
  {
    hide Size, SameBits;
    HighParts(h, v, Abs(d));
    assert Size(v - 2 * h, d) == Size(v - 2 * h, Abs(d)) && Size(v, d) == Size(v, Abs(d)) by {
      SizeOfAbs(v - 2 * h, d);
      SizeOfAbs(v, d);
    }
    BitsDiffer(h, Quot(v - 2 * h, d), Quot(v, d));
  }

  lemma SizeOfAbs(i: int, j: int)
    requires j != 0
    ensures Size(i, j) == Size(i, Abs(j))
  {
  }

  lemma {:induction false} HighByLowRem(h: nat, v: int, d: int)
    requires h > 1 && h <= v < 2 * h && 0 - h <= d < h && d != 0
    ensures SameBits(h, Rem(v - 2 * h, d), Rem(v, d)) <==> v % Abs(d) == 0 && 2 * h % Abs(d) == 0
  {
    hide Size, SameBits, Quot, Rem;
    var e := Abs(d);
    RemIs(v - 2 * h, d);
    RemIs(v, d);
    BitsDiffer(h, Rem(v - 2 * h, d), Rem(v, d));
    BothZero(v, 2 * h - v, e);
  }

  lemma {:induction false} BothZero(a: int, b: int, e: int)
    requires e > 0
    ensures a % e == 0 && b % e == 0 <==> a % e == 0 && (a + b) % e == 0
  {
    if a % e == 0 {
      var q := a / e;
      assert a == q * e;
      ModShift(b, q, e);
    }
  }

  /** The signed quotient has the right bits exactly in these cases. */
  lemma {:induction false} DivCases(h: nat, v: int, d: int)
    requires h > 1 && Held(h, v) && Held(h, d) && d != 0
    ensures SameBits(h, Quot(ReadLow(h, v), ReadLow(h, d)), Quot(v, d)) <==> DivRight(h, v, d)
  {
    hide Quot, SameBits;
    if v < h {
      if d >= h {
        LowByHigh(h, v, d);
      } else {
        SameIsSame(h, Quot(v, d));
      }
    } else if d >= h {
      HighByHigh(h, v, d);
    } else {
      HighByLowQuot(h, v, d);
    }
  }

  lemma SameIsSame(h: nat, p: int)
    requires h > 0
    ensures SameBits(h, p, p)
  {
  }

  lemma {:induction false} ModCases(h: nat, v: int, d: int)
    requires h > 1 && Held(h, v) && Held(h, d) && d != 0
    ensures SameBits(h, Rem(ReadLow(h, v), ReadLow(h, d)), Rem(v, d)) <==> ModRight(h, v, d)
  {
    hide Rem, SameBits;
    if v < h {
      if d >= h {
        LowByHigh(h, v, d);
      } else {
        SameIsSame(h, Rem(v, d));
      }
    } else if d >= h {
      HighByHigh(h, v, d);
    } else {
      HighByLowRem(h, v, d);
    }
  }

  lemma SameRem(a: int, b: int, e: int)
    requires e > 0
    ensures a % e == b % e <==> (a - b) % e == 0
  {
    var k := b / e;
    assert b == k * e + b % e;
    ModShift(a - k * e, k, e);
    if (a - b) % e == 0 {
      var q := (a - b) / e;
      assert a == b + q * e;
      ModShift(b, q, e);
    }
    if a % e == b % e {
      var j := a / e - k;
      assert a - b == j * e by {
        assert a == a / e * e + a % e;
        assert j * e == a / e * e - k * e;
      }
      ModUnique(a - b, j, 0, e);
    }
  }

  /** A dividend that has lost `u - n` of its value, at least one divisor's worth: the
    * quotient is another, and the remainder the same if the divisor goes into it. */
  lemma {:induction false} CutDividend(h: nat, n: int, u: int, d: int)
    requires h > 1 && 0 <= n < h <= u < 2 * h && 0 < Abs(d) <= u - n && Abs(d) <= h
    ensures !SameBits(h, Quot(n, d), Quot(u, d))
    ensures SameBits(h, Rem(n, d), Rem(u, d)) <==> (u - n) % Abs(d) == 0
  {
    hide Quot, Rem, Size, SameBits;
    var e := Abs(d);
    RemIs(n, d);
    RemIs(u, d);
    SameRem(u, n, e);
    BitsDiffer(h, Rem(n, d), Rem(u, d));
    QuotIs(n, d);
    QuotIs(u, d);
    BitsDiffer(h, Quot(n, d), Quot(u, d));
    SizeIs(n, d);
    SizeIs(u, d);
    SizesApart(Size(n, d), Size(u, d), e, n, u);
    QuotSign(n, d);
    QuotSign(u, d);
  }

  lemma QuotSign(i: int, j: int)
    requires i >= 0 && j != 0
    ensures Quot(i, j) == if j < 0 then 0 - Size(i, j) else Size(i, j)
  {
  }

  lemma SizesApart(s: nat, t: nat, e: nat, n: int, u: int)
    requires e > 0 && s * e <= n < s * e + e && t * e <= u < t * e + e && u >= n + e
    ensures t > s
  {
    assert t <= s ==> t * e <= s * e;
  }

  /** Only minint by minus one gives a quotient as large as that. */
  lemma {:induction false} OnlyMinByOne(i: int, j: int, h: int)
    requires -h <= i < h && j != 0 && h > 0 && !(i == -h && j == -1)
    ensures -h <= Quot(i, j) < h && -h <= Rem(i, j) < h
  {
    hide Quot, Rem, Size;
    QuotIs(i, j);
    QuotTimes(i, j);
    SizeIs(i, j);
    AtLeast(Size(i, j), Abs(j));
  }

  lemma {:induction false} ByOne(i: int)
    ensures Quot(i, 1) == i && Quot(i, -1) == -i && Rem(i, 1) == 0 && Rem(i, -1) == 0
  {
    SizeBetween(i, 1, Abs(i));
    SizeBetween(i, -1, Abs(i));
  }

  /** Bringing a negative remainder up by the divisor is the standard's mod. */
  lemma {:induction false} RemToMod(i: int, j: int)
    requires j > 0
    ensures i % j == if Rem(i, j) < 0 then Rem(i, j) + j else Rem(i, j)
  {
    QuotIs(i, j);
    var (q, r) := (Quot(i, j), Rem(i, j));
    hide Quot;
    if r < 0 {
      assert i == (q - 1) * j + (r + j);
      ModUnique(i, q - 1, r + j, j);
    } else {
      ModUnique(i, q, r, j);
    }
  }
}
