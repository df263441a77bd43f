/** div and mod as they are lowered: what the guards let through, and what the
  * 64-bit signed instructions make of it. */
module Division {
  import opened Bits
  import opened Lowering
  import opened LoweringCompare
  import opened Quotients

  const W := 64
  const HALF := Pow2(W - 1)

  datatype Computed = DivideByZero | DivOverflow | ModDivisor | Undefined | Value(bits: nat)

  /** sdiv and srem: no meaning for a zero divisor, or for the one quotient that
    * does not fit. */
  function SDiv(n: nat, d: nat): Computed {
    var (x, y) := (Signed(W, n), Signed(W, d));
    if y == 0 || (x == -HALF && y == -1) then Undefined else Value(Wrap(W, Quot(x, y)))
  }

  function SRem(n: nat, d: nat): Computed {
    var (x, y) := (Signed(W, n), Signed(W, d));
    if y == 0 || (x == -HALF && y == -1) then Undefined else Value(Wrap(W, Rem(x, y)))
  }

  /** The 64 bits an operand of value `v` arrives with: brought to the type `t` both
    * operands share, then widened by its own signedness. */
  function Widened(t: Target, e: Expr, v: int): nat
    requires t.w >= 1
  {
    Wrap(W, Interpret(OperandIsSigned(e), t.w, Wrap(t.w, v)))
  }

  /** The guards compare at the width of the operation's resolved type, where a
    * literal counts as an Integer and arithmetic as its own type. */
  function GuardWidth(turbo: bool, l: Expr, r: Expr): (w: nat)
    requires IsInt(l) && IsInt(r)
    ensures 1 <= w <= W
  {
    ResolvedWidth(turbo, l);
    ResolvedWidth(turbo, r);
    CommonType(ResolvedType(turbo, l), ResolvedType(turbo, r)).w
  }

  lemma {:induction false} ResolvedWidth(turbo: bool, e: Expr)
    requires IsInt(e)
    ensures 1 <= ResolvedType(turbo, e).w <= W
  {
    if e.Arith? {
      ResolvedWidth(turbo, e.left);
      ResolvedWidth(turbo, e.right);
    }
  }

  /** `l div r`, where the operands have the values `a` and `b`; the division itself is
    * done at 64 bits. */
  function LowerDiv(turbo: bool, l: Expr, a: int, r: Expr, b: int): Computed
    requires IsInt(l) && IsInt(r)
  {
    UnifiedWidth(l, r);
    var t := UnifyOperands(l, r);
    var (n, d, w) := (Widened(t, l, a), Widened(t, r, b), GuardWidth(turbo, l, r));
    DivAt(turbo, w, n, d)
  }

  function DivAt(turbo: bool, w: nat, n: nat, d: nat): Computed
    requires w >= 1
  {
    var (nAt, dAt) := (Wrap(w, n), Wrap(w, d));
    var bad := nAt == Pow2(w - 1) && dAt == Pow2(w) - 1;
    if dAt == 0 then DivideByZero
    else if turbo then SDiv(n, if w == W && bad then 1 else d)
    else if bad then DivOverflow
    else SDiv(n, d)
  }

  function LowerMod(turbo: bool, l: Expr, a: int, r: Expr, b: int): Computed
    requires IsInt(l) && IsInt(r)
  {
    UnifiedWidth(l, r);
    var t := UnifyOperands(l, r);
    ModAt(turbo, GuardWidth(turbo, l, r), Widened(t, l, a), Widened(t, r, b))
  }

  function ModAt(turbo: bool, w: nat, n: nat, d: nat): Computed
    requires w >= 1
  {
    var dAt := Wrap(w, d);
    if turbo then if dAt == 0 then DivideByZero else SRem(n, d)
    else if Signed(w, dAt) <= 0 then ModDivisor
    else
      match SRem(n, d)
      case Value(r) => Value(if Signed(W, r) < 0 then Wrap(W, r + d) else r)
      case u => u
  }

  // ---- the operands ----

  /** `v` is a value of `e` that 64 bits hold, signed or unsigned. */
  predicate HasValue(e: Expr, v: int)
    requires IsInt(e)
  {
    Held(HALF, v) && (IsSimple(e) ==> LadderWidth(e) && ValueOf(e, v))
  }

  lemma Halves()
    ensures Pow2(W) == 2 * HALF && HALF > 1
  {
    Pow2Monotone(1, W - 1);
    assert Pow2(1) == 2 * Pow2(0);
  }

  /** A variable or literal is always held. */
  lemma {:induction false} SimpleHeld(e: Expr, v: int)
    requires IsSimple(e) && LadderWidth(e) && ValueOf(e, v)
    ensures Held(HALF, v)
  {
    Halves();
    hide Pow2;
    if e.Operand? {
      Pow2Monotone(e.w, W);
      Pow2Monotone(e.w - 1, W - 1);
    }
  }

  /** A high literal that adopts the width of a narrow signed partner loses its upper
    * bits: below 64 bits it is cut to the width the two come to. */
  predicate Cut(e: Expr, other: Expr) {
    Narrowed(e, other) && UnifyOperands(e, other).w < W
  }

  /** The value the division gets for `v`: itself, or what is left of it. */
  function Arrives(e: Expr, other: Expr, v: int): int {
    if Cut(e, other) then Wrap(UnifyOperands(e, other).w, v) else v
  }

  /** Otherwise bringing the operands to a common type loses nothing the division needs. */
  lemma {:induction false} WidenedIs(l: Expr, a: int, r: Expr, b: int)
    requires IsInt(l) && IsInt(r) && HasValue(l, a) && HasValue(r, b)
    ensures var t := UnifyOperands(l, r);
            && t.w >= 1
            && Widened(t, l, a) == Wrap(W, Arrives(l, r, a)) && Widened(t, r, b) == Wrap(W, Arrives(r, l, b))
  {
    hide UnifyOperands, PromotionWidth, Held, Pow2, Wrap, Interpret, InRange, ValueOf, LadderWidth, Narrowed;
    UnifiedWidth(l, r);
    UnifySwaps(l, r);
    var t := UnifyOperands(l, r);
    if t.w == W {
      WrapInterpret(OperandIsSigned(l), W, Wrap(W, a));
      WrapInterpret(OperandIsSigned(r), W, Wrap(W, b));
    } else if Narrowed(l, r) {
      CutIs(l, a, r, b);
    } else if Narrowed(r, l) {
      CutIs(r, b, l, a);
    } else {
      NarrowInRange(l, r, a, b);
      InterpretWrap(OperandIsSigned(l), t.w, a);
      InterpretWrap(OperandIsSigned(r), t.w, b);
    }
  }

  lemma {:induction false} UnifySwaps(l: Expr, r: Expr)
    ensures UnifyOperands(l, r) == UnifyOperands(r, l)
  {
  }

  /** What arrives of a cut literal is still more than the partner's values. */
  lemma {:induction false} CutIs(e: Expr, u: int, other: Expr, s: int)
    requires IsSimple(e) && IsSimple(other) && HasValue(e, u) && HasValue(other, s) && Cut(e, other)
    ensures !Narrowed(other, e) && other.Operand? && other.w in {1, 8, 16} && OperandIsSigned(other) && !OperandIsSigned(e)
    ensures u == e.v && HALF <= u < 2 * HALF && InRange(true, other.w, s)
    ensures var t := UnifyOperands(e, other);
            var n := Wrap(t.w, u);
            && t.w == 2 * other.w && n == u - 2 * HALF + Pow2(t.w)
            && Pow2(other.w - 1) < n < HALF
            && Widened(t, e, u) == Wrap(W, n) && Widened(t, other, s) == Wrap(W, s)
  {
    hide PromotionWidth, UnifyOperands, Widened;
    MisreadTarget(e, other, s);
    Halves();
    var (w, k) := (other.w, 2 * other.w);
    var n := Wrap(k, u);
    LadderHalf(w);
    WrapLess(k, u);
    Pow2Monotone(k, W - 1);
    hide Pow2, InRange;
    assert n == u - 2 * HALF + Pow2(k) by {
      WrapMinus(k, u - 2 * HALF);
    }
    ArrivesAs(e, other, u, s, w);
  }

  lemma {:induction false} ArrivesAs(e: Expr, other: Expr, u: int, s: int, w: nat)
    requires w >= 1 && !OperandIsSigned(e) && OperandIsSigned(other) && InRange(true, w, s)
    ensures var t := Target(2 * w, true);
            Widened(t, e, u) == Wrap(W, Wrap(t.w, u)) && Widened(t, other, s) == Wrap(W, s)
  {
    WiderInRange(true, w, true, 2 * w, s);
    InterpretWrap(true, 2 * w, s);
  }

  /** A cut literal makes the operation unsigned and 64 bits wide. */
  lemma {:induction false} CutGuard(turbo: bool, e: Expr, other: Expr)
    requires IsInt(e) && IsInt(other) && Narrowed(e, other)
    ensures GuardWidth(turbo, e, other) == W && GuardWidth(turbo, other, e) == W
  {
    ResolvedWidth(turbo, other);
  }

  /** What arrives is held, and as good as the value where the guards look. */
  lemma {:induction false} ArrivesHeld(turbo: bool, l: Expr, a: int, r: Expr, b: int)
    requires IsInt(l) && IsInt(r) && HasValue(l, a) && HasValue(r, b)
    ensures var (x, y, w) := (Arrives(l, r, a), Arrives(r, l, b), GuardWidth(turbo, l, r));
            && Held(HALF, x) && Held(HALF, y)
            && (y % Pow2(w) == 0 <==> b % Pow2(w) == 0)
            && (ReadLow(HALF, x) == -HALF && ReadLow(HALF, y) == -1 <==> ReadLow(HALF, a) == -HALF && ReadLow(HALF, b) == -1)
  {
    hide UnifyOperands, Narrowed, GuardWidth, ValueOf, LadderWidth, Pow2;
    Halves();
    UnifySwaps(l, r);
    if Cut(l, r) {
      CutSimple(l, r);
      CutIs(l, a, r, b);
      PowHalves(r.w);
    } else if Cut(r, l) {
      CutSimple(r, l);
      CutIs(r, b, l, a);
      CutGuard(turbo, r, l);
      WrapId(W, b);
      WrapId(W, Arrives(r, l, b));
      PowHalves(l.w);
    }
  }

  lemma {:induction false} CutSimple(e: Expr, other: Expr)
    requires IsInt(e) && IsInt(other) && Cut(e, other)
    ensures IsSimple(e) && IsSimple(other)
  {
    UnifiedWidth(e, other);
  }

  lemma PowHalves(w: nat)
    requires 1 <= w <= 16
    ensures Pow2(w - 1) < HALF && Pow2(2 * w) <= HALF
  {
    Pow2Monotone(w, W - 1);
    Pow2Monotone(2 * w, W - 1);
    assert Pow2(w) == 2 * Pow2(w - 1);
  }

  lemma {:induction false} LowNotCut(e: Expr, v: int, other: Expr)
    requires IsInt(e) && HasValue(e, v) && v < HALF
    ensures !Cut(e, other) && Arrives(e, other, v) == v
  {
  }

  lemma LadderHalf(w: nat)
    requires w >= 1
    ensures Pow2(2 * w) > Pow2(w) == 2 * Pow2(w - 1)
  {
    Pow2Monotone(w + 1, 2 * w);
  }

  lemma {:induction false} NarrowInRange(l: Expr, r: Expr, a: int, b: int)
    requires IsSimple(l) && IsSimple(r) && LadderWidth(l) && LadderWidth(r) && ValueOf(l, a) && ValueOf(r, b)
    requires UnifyOperands(l, r).w < W && !Misread(l, r)
    ensures var t := UnifyOperands(l, r);
            t.w >= 1 && InRange(OperandIsSigned(l), t.w, a) && InRange(OperandIsSigned(r), t.w, b)
  {
    hide PromotionWidth, ValueOf, InRange;
    if Capped(l, r) {
      CappedTarget(l, r, a, b);
    } else {
      UnifiedInRange(l, r, a, b);
      LadderPromotion(l, r, a);
      LadderPromotion(r, l, b);
      var t := UnifyOperands(l, r);
      OwnRange(OperandIsSigned(l), t, PromotionWidth(l, r), a);
      OwnRange(OperandIsSigned(r), t, PromotionWidth(r, l), b);
    }
  }

  lemma OwnRange(signed: bool, t: Target, w: nat, v: int)
    requires t.w >= 1 && w >= 1 && InRange(t.signed, t.w, v) && (signed ==> t.signed) && (!signed ==> InRange(false, w, v))
    ensures InRange(signed, t.w, v)
  {
    assert Pow2(t.w) == 2 * Pow2(t.w - 1);
  }

  // ---- what the instructions read ----

  /** The signed reading of a held value's bits, and the two patterns the guards
    * look for. */
  lemma {:induction false} Reads(v: int)
    requires Held(HALF, v)
    ensures Signed(W, Wrap(W, v)) == ReadLow(HALF, v)
    ensures Wrap(W, v) == HALF <==> ReadLow(HALF, v) == -HALF
    ensures Wrap(W, v) == Pow2(W) - 1 <==> ReadLow(HALF, v) == -1
    ensures Wrap(W, Wrap(W, v)) == Wrap(W, v)
  {
    Halves();
    hide Pow2;
    WrapId(W, Wrap(W, v));
    if v < 0 {
      WrapMinus(W, v);
    } else {
      WrapId(W, v);
    }
  }

  lemma {:induction false} SameWrap(p: int, q: int)
    ensures HALF > 0 && (Wrap(W, p) == Wrap(W, q) <==> SameBits(HALF, p, q))
  {
    Halves();
  }

  lemma {:induction false} AllOnes(v: int, w: nat)
    requires 1 <= w <= W && Wrap(W, v) == Pow2(W) - 1
    ensures Wrap(w, v) == Pow2(w) - 1 && Wrap(w, v) != 0
  {
    WrapWrap(W, w, v);
    Pow2Add(W - w, w);
    var m := Pow2(w);
    assert Pow2(W) - 1 == (Pow2(W - w) - 1) * m + (m - 1) by {
      assert (Pow2(W - w) - 1) * m == Pow2(W - w) * m - m;
    }
    ModUnique(Pow2(W) - 1, Pow2(W - w) - 1, m - 1, m);
    assert Pow2(w) == 2 * Pow2(w - 1);
  }

  // ---- the guards ----

  /** Turbo stops exactly when the divisor's low bits, at the width of the resolved
    * type, are zero. */
  lemma {:induction false} TurboTraps(l: Expr, a: int, r: Expr, b: int)
    requires IsInt(l) && IsInt(r) && HasValue(l, a) && HasValue(r, b)
    ensures var w := GuardWidth(true, l, r);
            && (LowerDiv(true, l, a, r, b) == DivideByZero <==> b % Pow2(w) == 0)
            && (LowerMod(true, l, a, r, b) == DivideByZero <==> b % Pow2(w) == 0)
  {
    hide Pow2, Held, UnifyOperands, Signed, Quot, Rem, ValueOf, LadderWidth, GuardWidth, Widened, Arrives;
    WidenedIs(l, a, r, b);
    ArrivesHeld(true, l, a, r, b);
    WrapWrap(W, GuardWidth(true, l, r), Arrives(r, l, b));
  }

  /** For a divisor that fits the width, as every variable does, that is at zero. */
  lemma {:induction false} FittingTraps(l: Expr, a: int, r: Expr, b: int)
    requires IsInt(l) && IsInt(r) && HasValue(l, a) && HasValue(r, b)
    requires r.Operand? || -Pow2(GuardWidth(true, l, r)) < b < Pow2(GuardWidth(true, l, r))
    ensures LowerDiv(true, l, a, r, b) == DivideByZero <==> b == 0
    ensures LowerMod(true, l, a, r, b) == DivideByZero <==> b == 0
  {
    hide Held, UnifyOperands, LowerDiv, LowerMod;
    TurboTraps(l, a, r, b);
    var w := GuardWidth(true, l, r);
    if r.Operand? {
      Pow2Monotone(r.w, w);
      assert Pow2(r.w) == 2 * Pow2(r.w - 1);
    }
    if b < 0 {
      WrapMinus(w, b);
    } else {
      WrapId(w, b);
    }
  }

  /** `i div 65536` for an Integer `i`: the divisor is no Integer, its low 16 bits are
    * zero, and the program stops. */
  lemma {:induction false} LiteralDivisorTraps(i: int)
    requires InRange(true, 16, i)
    ensures IsInt(IntLit(65536))
    ensures var (l, r) := (Expr.Operand(0, 16, true), IntLit(65536));
            && GuardWidth(true, l, r) == 16 && HasValue(l, i) && HasValue(r, 65536)
            && LowerDiv(true, l, i, r, 65536) == DivideByZero
            && LowerMod(true, l, i, r, 65536) == DivideByZero
  {
    var (l, r) := (Expr.Operand(0, 16, true), IntLit(65536));
    Small();
    SimpleHeld(l, i);
    SimpleHeld(r, 65536);
    TurboTraps(l, i, r, 65536);
  }

  lemma Small()
    ensures Pow2(16) == 65536 && HALF > 65536 && InRange(true, 64, 65536)
  {
    assert Pow2(4) == 16 && Pow2(8) == 256 by {
      assert Pow2(2) == 4 && Pow2(3) == 8;
      Pow2Add(4, 4);
    }
    Pow2Add(8, 8);
    Pow2Monotone(17, W - 1);
    assert Pow2(17) == 2 * Pow2(16);
  }

  // ---- div ----

  /** Turbo's div below 64 bits has no guard for the quotient that does not fit: the
    * 64-bit instruction meets it where arithmetic of a narrow type got that far. */
  lemma {:induction false} TurboDivUndefined(l: Expr, a: int, r: Expr, b: int)
    requires IsInt(l) && IsInt(r) && HasValue(l, a) && HasValue(r, b)
    ensures LowerDiv(true, l, a, r, b) == Undefined
            <==> GuardWidth(true, l, r) < W && ReadLow(HALF, a) == -HALF && ReadLow(HALF, b) == -1
  {
    hide Pow2, UnifyOperands, Signed, Quot, ValueOf, LadderWidth, GuardWidth, Widened, Arrives;
    WidenedIs(l, a, r, b);
    ArrivesHeld(true, l, a, r, b);
    DivUndefinedAt(GuardWidth(true, l, r), Arrives(l, r, a), Arrives(r, l, b));
  }

  lemma {:induction false} DivUndefinedAt(w: nat, a: int, b: int)
    requires 1 <= w <= W && Held(HALF, a) && Held(HALF, b)
    ensures DivAt(true, w, Wrap(W, a), Wrap(W, b)) == Undefined
            <==> w < W && ReadLow(HALF, a) == -HALF && ReadLow(HALF, b) == -1
  {
    hide Pow2, Signed, Quot, Wrap;
    Reads(a);
    Reads(b);
    Halves();
    OneReads();
    WrapWrap(W, w, b);
    ZeroReads(b);
    if ReadLow(HALF, b) == -1 {
      AllOnes(b, w);
    }
    if Wrap(W, b) == 0 {
      ZeroAt(w);
    }
  }

  lemma ZeroAt(w: nat)
    ensures Wrap(w, 0) == 0
  {
  }

  lemma {:induction false} ZeroReads(v: int)
    requires Held(HALF, v)
    ensures Wrap(W, v) == 0 <==> ReadLow(HALF, v) == 0
    ensures Wrap(W, v) == 0 <==> v == 0
  {
    Halves();
    hide Pow2;
    if v < 0 {
      WrapMinus(W, v);
    } else {
      WrapId(W, v);
    }
  }

  lemma OneReads()
    ensures Signed(W, 1) == 1
  {
    Halves();
  }

  /** Three LongInt factors can make minint, as the square of the least LongInt times
    * -2 does, and a LongInt divisor of -1 then divides it with no guard. */
  lemma {:induction false} LongProductUndefined(l: Expr, r: Expr)
    requires l == Arith(Times, Target(32, true), LongSquare(), Expr.Operand(2, 32, true))
    requires r == Expr.Operand(3, 32, true)
    ensures WellTyped(true, l) && HasValue(l, -HALF) && HasValue(r, -1)
    ensures LowerDiv(true, l, -HALF, r, -1) == Undefined
    ensures -Pow2(31) * -Pow2(31) * -2 == -HALF && InRange(true, 32, -Pow2(31)) && InRange(true, 32, -2)
  {
    hide LowerDiv, Pow2;
    Halves();
    LeastByCube();
    LongUnit(r);
    TurboDivUndefined(l, -HALF, r, -1);
  }

  function LongSquare(): Expr {
    Arith(Times, Target(32, true), Expr.Operand(0, 32, true), Expr.Operand(1, 32, true))
  }

  lemma {:induction false} LongUnit(r: Expr)
    requires r == Expr.Operand(3, 32, true)
    ensures HasValue(r, -1) && InRange(true, 32, -2)
  {
    Pow2Monotone(1, 31);
    assert Pow2(1) == 2 * Pow2(0);
    hide Pow2;
    SimpleHeld(r, -1);
  }

  lemma {:induction false} LeastByCube()
    ensures -Pow2(31) * -Pow2(31) * -2 == -HALF
  {
    hide Pow2;
    Pow2Add(31, 31);
    TwiceTop();
    CubeOf(Pow2(31), Pow2(62));
  }

  lemma TwiceTop()
    ensures HALF == 2 * Pow2(62)
  {
  }

  lemma CubeOf(p: int, q: int)
    requires q == p * p
    ensures -p * -p * -2 == -(2 * q)
  {
    assert -p * -p == p * p;
  }

  /** When the quotient's bits come out: never for a cut dividend, always by a cut
    * divisor, and otherwise when the signed reading gets them right. */
  predicate DivComesOut(l: Expr, a: int, r: Expr, b: int) {
    if Cut(l, r) then false else Cut(r, l) || DivRight(HALF, a, b)
  }

  /** Turbo's div, for any two values that reach it: the quotient's bits exactly in
    * those cases. minint by -1 counts as right, as its bits are those of 2^63. */
  lemma {:induction false} TurboDiv(l: Expr, a: int, r: Expr, b: int)
    requires IsInt(l) && IsInt(r) && HasValue(l, a) && HasValue(r, b)
    requires LowerDiv(true, l, a, r, b) !in {DivideByZero, Undefined}
    ensures var c := LowerDiv(true, l, a, r, b);
            && b != 0 && c.Value?
            && (c.bits == Wrap(W, Quot(a, b)) <==> DivComesOut(l, a, r, b))
  {
    hide Pow2, UnifyOperands, Signed, Quot, ValueOf, LadderWidth, GuardWidth, Widened, DivAt, Arrives, Cut, DivRight, Wrap;
    WidenedIs(l, a, r, b);
    ArrivesHeld(true, l, a, r, b);
    DivValueAt(GuardWidth(true, l, r), Arrives(l, r, a), Arrives(r, l, b));
    CutQuotient(l, a, r, b);
  }

  /** The quotient and remainder of what arrives, against those of the values. */
  lemma {:induction false} CutQuotient(l: Expr, a: int, r: Expr, b: int)
    requires IsInt(l) && IsInt(r) && HasValue(l, a) && HasValue(r, b) && Arrives(r, l, b) != 0
    ensures var (x, y) := (Arrives(l, r, a), Arrives(r, l, b));
            && b != 0
            && (!Cut(l, r) && !Cut(r, l) ==> x == a && y == b)
            && (Cut(l, r) || Cut(r, l) ==>
                  && DivRight(HALF, x, y) && ModRight(HALF, x, y)
                  && (Wrap(W, Quot(x, y)) == Wrap(W, Quot(a, b)) <==> Cut(r, l))
                  && (Wrap(W, Rem(x, y)) == Wrap(W, Rem(a, b)) <==> ModComesOut(l, a, r, b)))
            && !(Cut(l, r) && Cut(r, l))
  {
    hide Pow2, UnifyOperands, ValueOf, LadderWidth, Narrowed, Quot, Rem, Widened, Wrap, SameBits;
    Halves();
    UnifySwaps(l, r);
    if Cut(l, r) {
      CutSimple(l, r);
      CutIs(l, a, r, b);
      CutDividendCase(l, a, r, b);
    } else if Cut(r, l) {
      CutSimple(r, l);
      CutIs(r, b, l, a);
      PowHalves(l.w);
      Smaller(a, Arrives(r, l, b));
      Smaller(a, b);
    }
  }

  lemma {:induction false} CutDividendCase(l: Expr, a: int, r: Expr, b: int)
    requires IsInt(l) && IsInt(r) && HasValue(l, a) && HasValue(r, b) && b != 0
    requires IsSimple(l) && IsSimple(r) && Cut(l, r)
    ensures var n := Wrap(UnifyOperands(l, r).w, a);
            && DivRight(HALF, n, b) && ModRight(HALF, n, b)
            && Wrap(W, Quot(n, b)) != Wrap(W, Quot(a, b))
            && (Wrap(W, Rem(n, b)) == Wrap(W, Rem(a, b)) <==> (Pow2(W) - Pow2(UnifyOperands(l, r).w)) % Abs(b) == 0)
  {
    hide Pow2, UnifyOperands, ValueOf, LadderWidth, Narrowed, Quot, Rem, Widened, Wrap, SameBits;
    Halves();
    CutIs(l, a, r, b);
    PowHalves(r.w);
    var n := Wrap(UnifyOperands(l, r).w, a);
    CutDividend(HALF, n, a, b);
    SameWrap(Quot(n, b), Quot(a, b));
    SameWrap(Rem(n, b), Rem(a, b));
  }

  lemma {:induction false} DivValueAt(w: nat, a: int, b: int)
    requires 1 <= w <= W && Held(HALF, a) && Held(HALF, b)
    requires DivAt(true, w, Wrap(W, a), Wrap(W, b)) !in {DivideByZero, Undefined}
    ensures var c := DivAt(true, w, Wrap(W, a), Wrap(W, b));
            b != 0 && c.Value? && (c.bits == Wrap(W, Quot(a, b)) <==> DivRight(HALF, a, b))
  {
    hide Pow2, Signed, Quot, Wrap, DivRight;
    Reads(a);
    Reads(b);
    Halves();
    OneReads();
    ZeroReads(b);
    ZeroAt(w);
    var (x, y) := (ReadLow(HALF, a), ReadLow(HALF, b));
    if w == W && x == -HALF && y == -1 {
      ByOne(x);
      WrongSign(a, b);
    } else {
      DivCases(HALF, a, b);
      SameWrap(Quot(x, y), Quot(a, b));
    }
  }

  /** With the divisor forced to 1 the dividend comes back, which has the bits of its
    * negation. */
  lemma {:induction false} WrongSign(a: int, b: int)
    requires Held(HALF, a) && Held(HALF, b) && b != 0
    requires ReadLow(HALF, a) == -HALF && ReadLow(HALF, b) == -1
    ensures Wrap(W, -HALF) == Wrap(W, Quot(a, b)) <==> DivRight(HALF, a, b)
  {
    hide Pow2, Quot, Wrap, SameBits;
    Halves();
    SameWrap(-HALF, Quot(a, b));
    if b == -1 {
      ByOne(a);
      BitsDiffer(HALF, -HALF, -a);
    } else {
      Smaller(a, b);
      BitsDiffer(HALF, -HALF, 0);
    }
  }

  /** The largest literal divided by a ShortInt of 1 is 65535: only its low 16 bits
    * arrive. */
  lemma {:induction false} LiteralDividendFails()
    ensures var (l, r) := (IntLit(Pow2(W) - 1), Expr.Operand(0, 8, true));
            && IsSimple(l) && HasValue(l, Pow2(W) - 1) && HasValue(r, 1)
            && LowerDiv(true, l, Pow2(W) - 1, r, 1) == Value(65535) && Quot(Pow2(W) - 1, 1) == Pow2(W) - 1
  {
    hide Pow2, LowerDiv, Quot, UnifyOperands, DivAt;
    var (l, r) := (IntLit(Pow2(W) - 1), Expr.Operand(0, 8, true));
    Halves();
    EightBits();
    Small();
    ByOne(Pow2(W) - 1);
    MisreadTarget(l, r, 1);
    CutIs(l, Pow2(W) - 1, r, 1);
    FittingTraps(l, Pow2(W) - 1, r, 1);
    TurboDivUndefined(l, Pow2(W) - 1, r, 1);
    LiteralDividend(l, r);
  }

  lemma {:induction false} LiteralDividend(l: Expr, r: Expr)
    requires IsSimple(l) && IsSimple(r) && HasValue(l, Pow2(W) - 1) && HasValue(r, 1)
    requires Cut(l, r) && !Cut(r, l) && Wrap(UnifyOperands(l, r).w, Pow2(W) - 1) == 65535
    requires LowerDiv(true, l, Pow2(W) - 1, r, 1) !in {DivideByZero, Undefined}
    ensures LowerDiv(true, l, Pow2(W) - 1, r, 1) == Value(65535)
  {
    hide Pow2, Quot, UnifyOperands, Widened, DivAt, GuardWidth, ValueOf, LadderWidth, Narrowed;
    Halves();
    Small();
    WidenedIs(l, Pow2(W) - 1, r, 1);
    DivValueAt(GuardWidth(true, l, r), 65535, 1);
    ByOne(65535);
    WrapId(W, 65535);
  }

  /** Values of up to 64 bits signed: Turbo's div is the truncated quotient. */
  lemma {:induction false} TurboDivExact(l: Expr, a: int, r: Expr, b: int)
    requires IsInt(l) && IsInt(r) && HasValue(l, a) && HasValue(r, b) && a < HALF && b < HALF
    requires LowerDiv(true, l, a, r, b) !in {DivideByZero, Undefined}
    ensures b != 0
    ensures var c := LowerDiv(true, l, a, r, b);
            c.Value? && Signed(W, c.bits) == if a == -HALF && b == -1 then a else Quot(a, b)
  {
    hide Pow2, Quot, LowerDiv, ValueOf, LadderWidth, Signed, Wrap, Cut;
    LowNotCut(l, a, r);
    LowNotCut(r, b, l);
    TurboDiv(l, a, r, b);
    Halves();
    if a == -HALF && b == -1 {
      ByOne(a);
      WrapId(W, HALF);
      TopReads();
    } else {
      OnlyMinByOne(a, b, HALF);
      InterpretWrap(true, W, Quot(a, b));
    }
  }

  lemma TopReads()
    ensures Signed(W, HALF) == -HALF
  {
    Halves();
  }

  /** Half of the largest power of two a QWord holds comes out far too large, whether
    * the 2 is a QWord or a Byte. */
  lemma {:induction false} QwordDivFails(w: nat)
    requires w == W || w == 8
    ensures var (l, r) := (Expr.Operand(0, W, false), Expr.Operand(1, w, false));
            && HasValue(l, HALF) && HasValue(r, 2)
            && var c := LowerDiv(true, l, HALF, r, 2);
               c.Value? && c.bits != Wrap(W, Quot(HALF, 2))
  {
    var (l, r) := (Expr.Operand(0, W, false), Expr.Operand(1, w, false));
    QwordValues(w);
    FittingTraps(l, HALF, r, 2);
    TurboDivUndefined(l, HALF, r, 2);
    hide Pow2, LowerDiv, Quot, ValueOf, LadderWidth;
    TurboDiv(l, HALF, r, 2);
  }

  lemma {:induction false} QwordValues(w: nat)
    requires w == W || w == 8
    ensures HasValue(Expr.Operand(0, W, false), HALF) && HasValue(Expr.Operand(1, w, false), 2)
    ensures HALF > 2
  {
    Halves();
    Pow2Monotone(2, w);
    Pow2Monotone(2, W - 1);
    assert Pow2(2) == 4;
  }

  // ---- mod ----

  /** Turbo's mod has no guard at all for minint by minus one. */
  lemma {:induction false} TurboModUndefined(l: Expr, a: int, r: Expr, b: int)
    requires IsInt(l) && IsInt(r) && HasValue(l, a) && HasValue(r, b)
    ensures LowerMod(true, l, a, r, b) == Undefined <==> ReadLow(HALF, a) == -HALF && ReadLow(HALF, b) == -1
  {
    hide Pow2, UnifyOperands, Signed, Rem, ValueOf, LadderWidth, GuardWidth, Widened, Wrap, Arrives, ModAt;
    WidenedIs(l, a, r, b);
    ArrivesHeld(true, l, a, r, b);
    ModUndefinedAt(GuardWidth(true, l, r), Arrives(l, r, a), Arrives(r, l, b));
  }

  lemma {:induction false} ModUndefinedAt(w: nat, a: int, b: int)
    requires 1 <= w <= W && Held(HALF, a) && Held(HALF, b)
    ensures ModAt(true, w, Wrap(W, a), Wrap(W, b)) == Undefined
            <==> ReadLow(HALF, a) == -HALF && ReadLow(HALF, b) == -1
  {
    hide Pow2, Signed, Rem, Wrap;
    Reads(a);
    Reads(b);
    ZeroReads(b);
    WrapWrap(W, w, b);
    ZeroAt(w);
    if ReadLow(HALF, b) == -1 {
      AllOnes(b, w);
    }
  }

  lemma {:induction false} LeastModUndefined()
    ensures var (l, r) := (Expr.Operand(0, W, true), Expr.Operand(1, W, true));
            && HasValue(l, -HALF) && HasValue(r, -1) && LowerMod(true, l, -HALF, r, -1) == Undefined
  {
    hide LowerMod, Pow2;
    Halves();
    TurboModUndefined(Expr.Operand(0, W, true), -HALF, Expr.Operand(1, W, true), -1);
  }

  /** When the remainder's bits come out: for a cut dividend if the divisor goes into
    * what was cut off, always by a cut divisor, and otherwise when the signed reading
    * gets them right. */
  predicate ModComesOut(l: Expr, a: int, r: Expr, b: int)
    requires b != 0
  {
    if Cut(l, r) then (Pow2(W) - Pow2(UnifyOperands(l, r).w)) % Abs(b) == 0
    else Cut(r, l) || ModRight(HALF, a, b)
  }

  /** Turbo's mod, for any two values that reach it: the truncated division's
    * remainder exactly in those cases. */
  lemma {:induction false} TurboMod(l: Expr, a: int, r: Expr, b: int)
    requires IsInt(l) && IsInt(r) && HasValue(l, a) && HasValue(r, b)
    requires LowerMod(true, l, a, r, b) !in {DivideByZero, Undefined}
    ensures var c := LowerMod(true, l, a, r, b);
            && b != 0 && c.Value?
            && (c.bits == Wrap(W, Rem(a, b)) <==> ModComesOut(l, a, r, b))
  {
    hide Pow2, UnifyOperands, Signed, Rem, ValueOf, LadderWidth, GuardWidth, Widened, Wrap, ModAt, Arrives, ModRight, Quot;
    WidenedIs(l, a, r, b);
    ArrivesHeld(true, l, a, r, b);
    ModValueAt(GuardWidth(true, l, r), Arrives(l, r, a), Arrives(r, l, b));
    CutQuotient(l, a, r, b);
  }

  lemma {:induction false} ModValueAt(w: nat, a: int, b: int)
    requires 1 <= w <= W && Held(HALF, a) && Held(HALF, b)
    requires ModAt(true, w, Wrap(W, a), Wrap(W, b)) !in {DivideByZero, Undefined}
    ensures var c := ModAt(true, w, Wrap(W, a), Wrap(W, b));
            b != 0 && c.Value? && (c.bits == Wrap(W, Rem(a, b)) <==> ModRight(HALF, a, b))
  {
    hide Pow2, Signed, Rem, Wrap, ModRight;
    Reads(a);
    Reads(b);
    ZeroReads(b);
    ZeroAt(w);
    Halves();
    ModCases(HALF, a, b);
    SameWrap(Rem(ReadLow(HALF, a), ReadLow(HALF, b)), Rem(a, b));
  }

  /** Values of up to 64 bits signed: the remainder, with the dividend's sign. */
  lemma {:induction false} TurboModExact(l: Expr, a: int, r: Expr, b: int)
    requires IsInt(l) && IsInt(r) && HasValue(l, a) && HasValue(r, b) && a < HALF && b < HALF
    requires LowerMod(true, l, a, r, b) !in {DivideByZero, Undefined}
    ensures b != 0
    ensures var c := LowerMod(true, l, a, r, b);
            c.Value? && Signed(W, c.bits) == Rem(a, b)
  {
    hide Pow2, Rem, LowerMod, ValueOf, LadderWidth, Signed, Wrap, Cut;
    LowNotCut(l, a, r);
    LowNotCut(r, b, l);
    TurboModUndefined(l, a, r, b);
    TurboMod(l, a, r, b);
    Halves();
    OnlyMinByOne(a, b, HALF);
    InterpretWrap(true, W, Rem(a, b));
  }

  /** 2^63 mod 10 is 8, and does not come out so. */
  lemma {:induction false} QwordModFails()
    ensures var (l, r) := (Expr.Operand(0, W, false), IntLit(10));
            && HasValue(l, HALF) && HasValue(r, 10) && Rem(HALF, 10) == 8
            && var c := LowerMod(true, l, HALF, r, 10);
               c.Value? && c.bits != Wrap(W, Rem(HALF, 10))
  {
    var (l, r) := (Expr.Operand(0, W, false), IntLit(10));
    QwordValues(W);
    Small();
    Tenths();
    FittingTraps(l, HALF, r, 10);
    TurboModUndefined(l, HALF, r, 10);
    hide Pow2, LowerMod, ValueOf, LadderWidth;
    RemIs(HALF, 10);
    hide Rem;
    TurboMod(l, HALF, r, 10);
  }

  lemma Tenths()
    ensures HALF % 10 == 8 && Pow2(W) > 10
  {
    TenthsOf(15);
    Pow2Add(3, 60);
    Pow2Monotone(4, W);
    assert Pow2(3) == 8 && Pow2(4) == 16;
    assert 3 + 60 == W - 1 && 4 * 15 == 60;
    hide Pow2;
    EightTimes(Pow2(60));
  }

  lemma EightTimes(n: nat)
    requires n % 10 == 6
    ensures 8 * n % 10 == 8
  {
  }

  /** Powers of 16 end in 6. */
  lemma {:induction false} TenthsOf(k: nat)
    requires k >= 1
    ensures Pow2(4 * k) % 10 == 6
  {
    assert Pow2(4) == 16;
    hide Pow2;
    if k > 1 {
      TenthsOf(k - 1);
      Pow2Add(4, 4 * (k - 1));
      assert 4 + 4 * (k - 1) == 4 * k;
      SixteenTimes(Pow2(4 * (k - 1)));
    }
  }

  lemma SixteenTimes(n: nat)
    requires n % 10 == 6
    ensures 16 * n % 10 == 6
  {
  }

  // ---- the standard's one Integer ----

  /** Where there is one Integer of 64 bits, div traps exactly when there is no
    * quotient to give, and is exact otherwise. */
  lemma {:induction false} StandardDiv(l: Expr, a: int, r: Expr, b: int)
    requires IsInt(l) && IsInt(r) && HasValue(l, a) && HasValue(r, b) && a < HALF && b < HALF
    requires GuardWidth(false, l, r) == W
    ensures var c := LowerDiv(false, l, a, r, b);
            if b == 0 then c == DivideByZero
            else if a == -HALF && b == -1 then c == DivOverflow
            else c.Value? && Signed(W, c.bits) == Quot(a, b)
  {
    hide Pow2, UnifyOperands, Signed, Quot, ValueOf, LadderWidth, GuardWidth, Widened, Wrap, Arrives;
    LowNotCut(l, a, r);
    LowNotCut(r, b, l);
    WidenedIs(l, a, r, b);
    Reads(a);
    Reads(b);
    ZeroReads(b);
    Halves();
    if b != 0 && !(a == -HALF && b == -1) {
      OnlyMinByOne(a, b, HALF);
      InterpretWrap(true, W, Quot(a, b));
    }
  }

  /** The standard's mod: defined for a positive divisor, and then 0 <= i mod j < j. */
  lemma {:induction false} StandardMod(l: Expr, a: int, r: Expr, b: int)
    requires IsInt(l) && IsInt(r) && HasValue(l, a) && HasValue(r, b) && a < HALF && b < HALF
    requires GuardWidth(false, l, r) == W
    ensures var c := LowerMod(false, l, a, r, b);
            if b <= 0 then c == ModDivisor
            else c.Value? && Signed(W, c.bits) == a % b
  {
    hide Pow2, UnifyOperands, Signed, Quot, Rem, ValueOf, LadderWidth, GuardWidth, Widened, Wrap, Arrives;
    LowNotCut(l, a, r);
    LowNotCut(r, b, l);
    WidenedIs(l, a, r, b);
    Reads(a);
    Reads(b);
    if b > 0 {
      RemToMod(a, b);
      OnlyMinByOne(a, b, HALF);
      InterpretWrap(true, W, Rem(a, b));
      WrapAdd(W, Rem(a, b), b);
      InterpretWrap(true, W, a % b);
    }
  }
}
