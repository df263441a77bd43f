/** Comparisons: the type two integer operands are compared at, and when comparing
  * there keeps the order of their values. */
module LoweringCompare {
  import opened Bits
  import opened Ir
  import opened Lowering

  /** The one case the unified width cannot represent: an unsigned operand too
    * wide to double, beside a signed one that is no wider. */
  predicate Capped(l: Expr, r: Expr) {
    var (lw, rw) := (PromotionWidth(l, r), PromotionWidth(r, l));
    var (uw, sw) := if OperandIsSigned(l) then (rw, lw) else (lw, rw);
    OperandIsSigned(l) != OperandIsSigned(r) && 2 * uw > 64 && sw <= uw
  }

  /** A high literal that adopts a signed partner's width, as the negative number it is
    * kept as fits there. */
  predicate Narrowed(e: Expr, other: Expr) {
    e.IntLit? && IsHigh(e.v) && !other.IntLit? && OperandIsSigned(other)
    && LiteralFitsWidth(StoredLiteral(e.v), EmittedWidth(other), false)
  }

  /** One of the two is such a literal. */
  predicate Misread(l: Expr, r: Expr) { Narrowed(l, r) || Narrowed(r, l) }

  /** `v` is a value the operand `e` can have. */
  predicate ValueOf(e: Expr, v: int)
    requires IsSimple(e)
  {
    if e.IntLit? then v == e.v else InRange(e.signed, e.w, v)
  }

  lemma {:induction false} PromotedInRange(e: Expr, other: Expr, v: int)
    requires IsSimple(e) && IsSimple(other) && ValueOf(e, v) && !Narrowed(e, other)
    ensures 1 <= PromotionWidth(e, other) <= 64
    ensures InRange(OperandIsSigned(e), PromotionWidth(e, other), v)
            || (InRange(false, PromotionWidth(e, other), v)
                && !OperandIsSigned(other) && PromotionWidth(e, other) == PromotionWidth(other, e))
  {
  }

  lemma {:induction false} WiderInRange(signed: bool, w: nat, signed': bool, w': nat, v: int)
    requires 1 <= w && 1 <= w' && InRange(signed, w, v)
    requires (signed == signed' && w <= w') || (!signed && signed' && w < w')
    ensures InRange(signed', w', v)
  {
    Pow2Monotone(w - 1, w' - 1);
    Pow2Monotone(w, w');
    if !signed && signed' {
      Pow2Monotone(w, w' - 1);
    }
  }

  lemma {:induction false} UnifiedInRange(l: Expr, r: Expr, a: int, b: int)
    requires IsSimple(l) && IsSimple(r) && ValueOf(l, a) && ValueOf(r, b) && !Capped(l, r) && !Misread(l, r)
    ensures var t := UnifyOperands(l, r);
            t.w >= 1 && InRange(t.signed, t.w, a) && InRange(t.signed, t.w, b)
  {
    PromotedInRange(l, r, a);
    PromotedInRange(r, l, b);
    var t := UnifyOperands(l, r);
    var (lw, rw) := (PromotionWidth(l, r), PromotionWidth(r, l));
    var ls := if InRange(OperandIsSigned(l), lw, a) then OperandIsSigned(l) else false;
    var rs := if InRange(OperandIsSigned(r), rw, b) then OperandIsSigned(r) else false;
    WiderInRange(ls, lw, t.signed, t.w, a);
    WiderInRange(rs, rw, t.signed, t.w, b);
  }

  lemma {:induction false} CompareInRange(op: RelOp, t: Target, a: int, b: int)
    requires t.w >= 1 && InRange(t.signed, t.w, a) && InRange(t.signed, t.w, b)
    ensures Compare(RelPred(op, t.signed), t.w, Wrap(t.w, a), Wrap(t.w, b)) == Relates(op, a, b)
  {
    InterpretWrap(t.signed, t.w, a);
    InterpretWrap(t.signed, t.w, b);
  }

  /** Beside arithmetic, which is at 64 bits, every comparison is. */
  lemma {:induction false} UnifiedWidth(l: Expr, r: Expr)
    requires IsInt(l) && IsInt(r)
    ensures 1 <= UnifyOperands(l, r).w <= 64
    ensures !IsSimple(l) || !IsSimple(r) ==> UnifyOperands(l, r).w == 64
  {
  }

  /** What the emitted comparison of two operand values answers. */
  predicate EmittedRelation(l: Expr, r: Expr, op: RelOp, a: int, b: int)
    requires IsInt(l) && IsInt(r)
  {
    UnifiedWidth(l, r);
    var t := UnifyOperands(l, r);
    Compare(RelPred(op, t.signed), t.w, Wrap(t.w, a), Wrap(t.w, b))
  }

  /** How a comparison at the type `t` reads a value. */
  function Read(t: Target, v: int): int
    requires t.w >= 1
  {
    Interpret(t.signed, t.w, Wrap(t.w, v))
  }

  /** How many times over the range of `t` a value lies above that range. */
  function Window(t: Target, v: int): int
    requires t.w >= 1
  {
    (v + (if t.signed then Pow2(t.w - 1) else 0)) / Pow2(t.w)
  }

  /** Comparing at the type `t` gives the two values' own order: they are equally
    * far from its range, or what is read of the farther one is still beyond. */
  predicate OrderKept(t: Target, a: int, b: int)
    requires t.w >= 1
  {
    var (x, y) := (Window(t, a), Window(t, b));
    x == y || (if x < y then Read(t, a) < Read(t, b) else Read(t, b) < Read(t, a))
  }

  lemma {:induction false} ReadInWindow(t: Target, v: int)
    requires t.w >= 1
    ensures Read(t, v) == v - Window(t, v) * Pow2(t.w)
  {
    var (m, h) := (Pow2(t.w), Pow2(t.w - 1));
    var (q, r) := (v / m, v % m);
    assert m == 2 * h && v == q * m + r;
    hide Pow2;
    if t.signed {
      if r < h {
        ModUnique(v + h, q, r + h, m);
      } else {
        assert (q + 1) * m == q * m + m;
        ModUnique(v + h, q + 1, r + h - m, m);
      }
    }
  }

  lemma {:induction false} WindowOrder(t: Target, a: int, b: int)
    requires t.w >= 1 && Window(t, a) < Window(t, b)
    ensures a < b
  {
    var (c, m) := (if t.signed then Pow2(t.w - 1) else 0, Pow2(t.w));
    hide Pow2;
    var (x, y) := ((a + c) / m, (b + c) / m);
    assert a + c == x * m + (a + c) % m && b + c == y * m + (b + c) % m;
    TimesGap(x, y, m);
  }

  lemma TimesGap(x: int, y: int, m: int)
    requires x < y && m > 0
    ensures x * m + m <= y * m
  {
    assert y * m == x * m + (y - x) * m;
    MultipleBound(y - x, m);
  }

  /** All six comparisons of two integer trees are right exactly when the type they
    * are compared at keeps the two values' order. */
  lemma {:induction false} ComparisonRight(l: Expr, r: Expr, a: int, b: int)
    requires IsInt(l) && IsInt(r)
    ensures UnifyOperands(l, r).w >= 1
    ensures (forall op :: EmittedRelation(l, r, op, a, b) == Relates(op, a, b)) <==> OrderKept(UnifyOperands(l, r), a, b)
  {
    hide UnifyOperands, Read, Window, EmittedRelation, Relates;
    SixRight(l, r, a, b);
    var t := UnifyOperands(l, r);
    ReadInWindow(t, a);
    ReadInWindow(t, b);
    if Window(t, a) < Window(t, b) {
      WindowOrder(t, a, b);
    } else if Window(t, b) < Window(t, a) {
      WindowOrder(t, b, a);
    }
  }

  predicate SameSide(a: int, b: int, c: int, d: int) { (a < b) == (c < d) && (b < a) == (d < c) }

  /** All six are right when the two values are read in their own order. */
  lemma {:induction false} SixRight(l: Expr, r: Expr, a: int, b: int)
    requires IsInt(l) && IsInt(r)
    ensures var t := UnifyOperands(l, r);
            && t.w >= 1
            && ((forall op :: EmittedRelation(l, r, op, a, b) == Relates(op, a, b))
                <==> SameSide(Read(t, a), Read(t, b), a, b))
  {
    UnifiedWidth(l, r);
    var t := UnifyOperands(l, r);
    hide UnifyOperands, Read, Compare, Wrap, Relates, RelPred;
    forall op
      ensures EmittedRelation(l, r, op, a, b) == Relates(op, Read(t, a), Read(t, b))
    {
      EmittedReads(l, r, op, a, b);
    }
    SameOrder(Read(t, a), Read(t, b), a, b);
  }

  lemma {:induction false} EmittedReads(l: Expr, r: Expr, op: RelOp, a: int, b: int)
    requires IsInt(l) && IsInt(r)
    ensures var t := UnifyOperands(l, r);
            t.w >= 1 && EmittedRelation(l, r, op, a, b) == Relates(op, Read(t, a), Read(t, b))
  {
    hide UnifyOperands, Read, Compare, Wrap, Relates, RelPred;
    UnifiedWidth(l, r);
    ComparesAsRead(op, UnifyOperands(l, r), a, b);
  }

  /** Values that fit are in the window of the range itself. */
  lemma {:induction false} InRangeKept(t: Target, a: int, b: int)
    requires t.w >= 1 && InRange(t.signed, t.w, a) && InRange(t.signed, t.w, b)
    ensures OrderKept(t, a, b)
  {
    var (c, m) := (if t.signed then Pow2(t.w - 1) else 0, Pow2(t.w));
    ModUnique(a + c, 0, a + c, m);
    ModUnique(b + c, 0, b + c, m);
  }

  /** All six comparisons are exact for every pair of operands that is neither capped
    * nor misread, whether or not a literal adopted its partner's width. */
  lemma {:induction false} ComparisonExact(l: Expr, r: Expr, op: RelOp, a: int, b: int)
    requires IsSimple(l) && IsSimple(r) && ValueOf(l, a) && ValueOf(r, b) && !Capped(l, r) && !Misread(l, r)
    ensures EmittedRelation(l, r, op, a, b) == Relates(op, a, b)
  {
    UnifiedInRange(l, r, a, b);
    CompareInRange(op, UnifyOperands(l, r), a, b);
  }

  /** The widths ordinal types are given. */
  predicate LadderWidth(e: Expr) {
    e.Operand? ==> e.w in {1, 8, 16, 32, 64}
  }

  /** Where the cap bites or a literal is misread, it can be told from the two values
    * alone: `u` is the unsigned value and `s` the signed one. A tied width compares
    * signed, a narrower signed operand compares unsigned. */
  predicate CappedAgrees(tied: bool, u: int, s: int) {
    if tied then u < Pow2(63) || s < u - Pow2(64) else s >= 0 || s + Pow2(64) < u
  }

  lemma {:induction false} ReadCappedValues(tied: bool, u: int, s: int)
    requires InRange(false, 64, u) && InRange(true, 64, s)
    ensures Read(Target(64, tied), u) == if tied && u >= Pow2(63) then u - Pow2(64) else u
    ensures Read(Target(64, tied), s) == if !tied && s < 0 then s + Pow2(64) else s
  {
    WrapId(64, u);
    if s < 0 {
      WrapMinus(64, s);
    } else {
      WrapId(64, s);
    }
  }

  lemma {:induction false} ComparesAsRead(op: RelOp, t: Target, a: int, b: int)
    requires t.w >= 1
    ensures Compare(RelPred(op, t.signed), t.w, Wrap(t.w, a), Wrap(t.w, b)) == Relates(op, Read(t, a), Read(t, b))
  {
    WrapInterpret(t.signed, t.w, Wrap(t.w, a));
    WrapInterpret(t.signed, t.w, Wrap(t.w, b));
    CompareInRange(op, t, Read(t, a), Read(t, b));
  }

  lemma {:induction false} SameOrder(a: int, b: int, c: int, d: int)
    ensures (forall op :: Relates(op, a, b) == Relates(op, c, d))
            <==> SameSide(a, b, c, d)
  {
    assert Relates(LessThan, a, b) == (a < b) && Relates(LessThan, c, d) == (c < d);
    assert Relates(GreaterThan, a, b) == (b < a) && Relates(GreaterThan, c, d) == (d < c);
  }

  /** In the cases left, the six comparisons are right exactly by that test. */
  lemma {:induction false} CappedComparison(l: Expr, r: Expr, a: int, b: int)
    requires IsSimple(l) && IsSimple(r) && LadderWidth(l) && LadderWidth(r)
    requires ValueOf(l, a) && ValueOf(r, b) && (Capped(l, r) || Misread(l, r))
    ensures var (u, s) := if OperandIsSigned(l) then (b, a) else (a, b);
            (forall op :: EmittedRelation(l, r, op, a, b) == Relates(op, a, b))
            <==> CappedAgrees(PromotionWidth(l, r) == PromotionWidth(r, l), u, s)
  {
    var tied := PromotionWidth(l, r) == PromotionWidth(r, l);
    var (u, s) := if OperandIsSigned(l) then (b, a) else (a, b);
    hide PromotionWidth, Capped, Misread, UnifyOperands, Read, EmittedRelation, Relates, LadderWidth, CappedAgrees;
    SixRight(l, r, a, b);
    if Misread(l, r) {
      MisreadSides(l, r, a, b);
    } else {
      CappedTarget(l, r, a, b);
      CappedSides(tied, u, s);
    }
  }

  /** A misread literal is read as the negative number it is kept as. */
  lemma {:induction false} MisreadTarget(e: Expr, other: Expr, s: int)
    requires IsSimple(e) && IsSimple(other) && LadderWidth(other) && ValueOf(other, s) && Narrowed(e, other)
    ensures PromotionWidth(e, other) == PromotionWidth(other, e) == other.w
    ensures UnifyOperands(e, other) == UnifyOperands(other, e) == Target(if other.w == 64 then 64 else 2 * other.w, true)
    ensures InRange(true, other.w, StoredLiteral(e.v)) && InRange(true, other.w, s)
  {
  }

  lemma {:induction false} MisreadReads(e: Expr, other: Expr, s: int)
    requires IsSimple(e) && IsSimple(other) && LadderWidth(other) && ValueOf(other, s) && Narrowed(e, other)
    ensures var t := UnifyOperands(e, other);
            t.w >= 1 && Read(t, e.v) == e.v - Pow2(64) && Read(t, s) == s
  {
    hide PromotionWidth, UnifyOperands, InRange;
    MisreadTarget(e, other, s);
    var t := UnifyOperands(e, other);
    WiderInRange(true, other.w, true, t.w, StoredLiteral(e.v));
    WiderInRange(true, other.w, true, t.w, s);
    InterpretWrap(true, t.w, StoredLiteral(e.v));
    InterpretWrap(true, t.w, s);
    WrapLess(t.w, e.v);
  }

  lemma {:induction false} WrapLess(w: nat, v: int)
    requires w <= 64
    ensures Wrap(w, v - Pow2(64)) == Wrap(w, v)
  {
    Pow2Add(64 - w, w);
    ModShift(v - Pow2(64), Pow2(64 - w), Pow2(w));
  }

  lemma {:induction false} MisreadSides(l: Expr, r: Expr, a: int, b: int)
    requires IsSimple(l) && IsSimple(r) && LadderWidth(l) && LadderWidth(r)
    requires ValueOf(l, a) && ValueOf(r, b) && Misread(l, r)
    ensures OperandIsSigned(l) != OperandIsSigned(r)
    ensures var (u, s) := if OperandIsSigned(l) then (b, a) else (a, b);
            var t := UnifyOperands(l, r);
            && t.w >= 1
            && (SameSide(Read(t, a), Read(t, b), a, b)
                <==> CappedAgrees(PromotionWidth(l, r) == PromotionWidth(r, l), u, s))
  {
    hide PromotionWidth, UnifyOperands, Read;
    TwiceTop();
    if Narrowed(l, r) {
      MisreadTarget(l, r, b);
      MisreadReads(l, r, b);
      SignedBelow(r, b);
    } else {
      MisreadTarget(r, l, a);
      MisreadReads(r, l, a);
      SignedBelow(l, a);
    }
  }

  lemma TwiceTop()
    ensures Pow2(64) == 2 * Pow2(63)
  {
  }

  lemma {:induction false} SignedBelow(e: Expr, v: int)
    requires IsSimple(e) && e.Operand? && OperandIsSigned(e) && ValueOf(e, v)
    ensures InRange(true, 64, v)
  {
    Pow2Monotone(e.w - 1, 63);
  }

  lemma {:induction false} CappedSides(tied: bool, u: int, s: int)
    requires InRange(false, 64, u) && InRange(true, 64, s)
    ensures SameSide(Read(Target(64, tied), u), Read(Target(64, tied), s), u, s) <==> CappedAgrees(tied, u, s)
  {
    hide Read, Pow2;
    ReadCappedValues(tied, u, s);
    TwiceTop();
  }

  /** A QWord of 0 comes out less than a ShortInt of -1. */
  lemma {:induction false} CappedFails()
    ensures var (q, i) := (Expr.Operand(0, 64, false), Expr.Operand(1, 8, true));
            Capped(q, i) && EmittedRelation(q, i, LessThan, 0, -1) && !Relates(LessThan, 0, -1)
  {
    var (q, i) := (Expr.Operand(0, 64, false), Expr.Operand(1, 8, true));
    assert UnifyOperands(q, i) == Target(64, false);
    WrapMinus(64, -1);
    WrapId(64, 0);
    Pow2Monotone(1, 64);
    assert Pow2(1) == 2 * Pow2(0);
  }

  /** The sum of two Bytes is a 64-bit value of an unsigned type: beside an Integer of
    * -1 it is compared unsigned, and 2 does not come out greater. */
  lemma {:induction false} ByteSumFails()
    ensures var sum := Arith(Plus, Target(8, false), Expr.Operand(0, 8, false), Expr.Operand(1, 8, false));
            var i := Expr.Operand(2, 16, true);
            && WellTyped(true, Relation(GreaterThan, sum, i))
            && !EmittedRelation(sum, i, GreaterThan, 2, -1) && Relates(GreaterThan, 2, -1)
  {
    var sum := Arith(Plus, Target(8, false), Expr.Operand(0, 8, false), Expr.Operand(1, 8, false));
    var i := Expr.Operand(2, 16, true);
    assert UnifyOperands(sum, i) == Target(64, false);
    WrapMinus(64, -1);
    Pow2Monotone(2, 64);
    assert Pow2(2) == 2 * Pow2(1) && Pow2(1) == 2 * Pow2(0);
    WrapId(64, 2);
  }

  /** A ShortInt of 5 is not less than 18446744073709551615: the literal, kept as -1,
    * fits the ShortInt's width and is read there as -1. */
  lemma {:induction false} HighLiteralFails()
    ensures var (i, lit) := (Expr.Operand(0, 8, true), IntLit(Pow2(64) - 1));
            && IsSimple(lit) && Misread(i, lit) && !Capped(i, lit)
            && !EmittedRelation(i, lit, LessThan, 5, Pow2(64) - 1) && Relates(LessThan, 5, Pow2(64) - 1)
  {
    hide Pow2, Read, EmittedRelation;
    var (i, lit) := (Expr.Operand(0, 8, true), IntLit(Pow2(64) - 1));
    EightBits();
    TwiceTop();
    MisreadReads(lit, i, 5);
    MisreadTarget(lit, i, 5);
    SixRight(i, lit, 5, Pow2(64) - 1);
    EmittedReads(i, lit, LessThan, 5, Pow2(64) - 1);
  }

  lemma EightBits()
    ensures Pow2(7) == 128 && Pow2(63) >= 128
  {
    assert Pow2(3) == 8 && Pow2(4) == 16;
    Pow2Add(3, 4);
    Pow2Monotone(7, 63);
  }

  lemma {:induction false} CappedTarget(l: Expr, r: Expr, a: int, b: int)
    requires IsSimple(l) && IsSimple(r) && LadderWidth(l) && LadderWidth(r)
    requires ValueOf(l, a) && ValueOf(r, b) && Capped(l, r) && !Misread(l, r)
    ensures UnifyOperands(l, r) == Target(64, PromotionWidth(l, r) == PromotionWidth(r, l))
    ensures var (u, s) := if OperandIsSigned(l) then (b, a) else (a, b);
            InRange(false, 64, u) && InRange(true, 64, s)
  {
    hide PromotionWidth, LiteralFitsWidth;
    LadderPromotion(l, r, a);
    LadderPromotion(r, l, b);
  }

  lemma {:induction false} LadderPromotion(e: Expr, other: Expr, v: int)
    requires IsSimple(e) && IsSimple(other) && LadderWidth(e) && LadderWidth(other) && ValueOf(e, v)
    ensures PromotionWidth(e, other) in {1, 8, 16, 32, 64}
    ensures OperandIsSigned(e) ==> InRange(true, 64, v)
    ensures !OperandIsSigned(e) ==> InRange(false, 64, v)
    ensures !OperandIsSigned(e) && !Narrowed(e, other) ==> InRange(false, PromotionWidth(e, other), v)
  {
    hide PromotionWidth, Narrowed, IsHigh;
    if e.Operand? {
      OwnWidth(e, other);
      Pow2Monotone(e.w - 1, 63);
      Pow2Monotone(e.w, 64);
    } else {
      LiteralWidth(e, other);
    }
  }

  lemma {:induction false} OwnWidth(e: Expr, other: Expr)
    requires e.Operand?
    ensures PromotionWidth(e, other) == e.w
  {
  }

  lemma {:induction false} LiteralWidth(e: Expr, other: Expr)
    requires e.IntLit? && IsSimple(e) && IsSimple(other) && LadderWidth(other)
    ensures PromotionWidth(e, other) in {1, 8, 16, 32, 64}
    ensures InRange(!IsHigh(e.v), 64, e.v)
    ensures IsHigh(e.v) && !Narrowed(e, other) ==> PromotionWidth(e, other) == 64
  {
    TwiceTop();
    hide Pow2;
  }

  // ---- a closed test ----

  /** A value of `e` between -2^63 and 2^64. */
  predicate HeldValue(e: Expr, v: int)
    requires IsInt(e)
  {
    -Pow2(63) <= v < Pow2(64) && (IsSimple(e) ==> LadderWidth(e) && ValueOf(e, v))
  }

  /** Not read as itself at 64 bits. */
  predicate Outside(signed: bool, v: int) {
    if signed then v >= Pow2(63) else v < 0
  }

  /** An outside value `o` stays on its side of `i` when it goes round. */
  predicate StaysBeyond(signed: bool, o: int, i: int) {
    if signed then i < o - Pow2(64) else o + Pow2(64) < i
  }

  /** Two values at 64 bits: both are outside, or neither, or the one that is stays
    * beyond the other. */
  predicate KeptAt64(signed: bool, a: int, b: int) {
    var (x, y) := (Outside(signed, a), Outside(signed, b));
    x == y || (if x then StaysBeyond(signed, a, b) else StaysBeyond(signed, b, a))
  }

  /** Below 64 bits only a misread literal goes wrong. */
  predicate ComparesRight(l: Expr, r: Expr, a: int, b: int) {
    var t := UnifyOperands(l, r);
    if t.w == 64 then KeptAt64(t.signed, a, b)
    else if Narrowed(l, r) then StaysBeyond(true, a, b)
    else Narrowed(r, l) ==> StaysBeyond(true, b, a)
  }

  lemma {:induction false} ReadHeld(signed: bool, v: int)
    requires -Pow2(63) <= v < Pow2(64)
    ensures Read(Target(64, signed), v)
            == if Outside(signed, v) then if signed then v - Pow2(64) else v + Pow2(64) else v
  {
    TwiceTop();
    hide Pow2;
    if v < 0 {
      WrapMinus(64, v);
    } else {
      WrapId(64, v);
    }
  }

  lemma {:induction false} HeldAt64(signed: bool, a: int, b: int)
    requires -Pow2(63) <= a < Pow2(64) && -Pow2(63) <= b < Pow2(64)
    ensures var t := Target(64, signed); SameSide(Read(t, a), Read(t, b), a, b) <==> KeptAt64(signed, a, b)
  {
    hide Read, Pow2;
    ReadHeld(signed, a);
    ReadHeld(signed, b);
    TwiceTop();
  }

  /** For values 64 bits hold, whatever the two trees are, the six comparisons are right
    * exactly by a test on the two values and the type they are compared at. */
  lemma {:induction false} ComparisonHeld(l: Expr, r: Expr, a: int, b: int)
    requires IsInt(l) && IsInt(r) && HeldValue(l, a) && HeldValue(r, b)
    ensures (forall op :: EmittedRelation(l, r, op, a, b) == Relates(op, a, b)) <==> ComparesRight(l, r, a, b)
  {
    hide UnifyOperands, Read, EmittedRelation, Relates, Capped, Narrowed, KeptAt64, SameSide;
    SixRight(l, r, a, b);
    UnifiedWidth(l, r);
    var t := UnifyOperands(l, r);
    if t.w == 64 {
      HeldAt64(t.signed, a, b);
    } else if Misread(l, r) {
      NarrowSides(l, r, a, b);
    } else {
      NotCapped(l, r);
      forall op
        ensures EmittedRelation(l, r, op, a, b) == Relates(op, a, b)
      {
        ComparisonExact(l, r, op, a, b);
      }
    }
  }

  lemma {:induction false} NotCapped(l: Expr, r: Expr)
    requires IsSimple(l) && IsSimple(r) && LadderWidth(l) && LadderWidth(r) && UnifyOperands(l, r).w < 64
    ensures !Capped(l, r)
  {
  }

  lemma {:induction false} NarrowSides(l: Expr, r: Expr, a: int, b: int)
    requires IsSimple(l) && IsSimple(r) && HeldValue(l, a) && HeldValue(r, b) && Misread(l, r)
    ensures var t := UnifyOperands(l, r);
            t.w >= 1 && (SameSide(Read(t, a), Read(t, b), a, b)
                         <==> if Narrowed(l, r) then StaysBeyond(true, a, b) else StaysBeyond(true, b, a))
  {
    hide PromotionWidth, UnifyOperands, Read, LadderWidth;
    TwiceTop();
    if Narrowed(l, r) {
      MisreadTarget(l, r, b);
      MisreadReads(l, r, b);
      SignedBelow(r, b);
    } else {
      MisreadTarget(r, l, a);
      MisreadReads(r, l, a);
      SignedBelow(l, a);
    }
  }

  // ---- whole trees ----

  /** Every comparison that is evaluated keeps the order of its two values. */
  predicate Exact(turbo: bool, world: World, e: Expr, trace: seq<nat>)
    requires IsInt(e) || IsBool(e)
  {
    match e
    case Relation(_, l, r) =>
      var a := Eval(turbo, world, l, trace);
      UnifiedWidth(l, r);
      OrderKept(UnifyOperands(l, r), a.v, Eval(turbo, world, r, a.trace).v)
    case Not(x) => Exact(turbo, world, x, trace)
    case Logic(op, full, l, r) =>
      var a := Eval(turbo, world, l, trace);
      && Exact(turbo, world, l, trace)
      && ((ShortCircuits(turbo, op, full) && a.v == FromBool(!IsAnd(op))) || Exact(turbo, world, r, a.trace))
    case _ => true
  }

  /** The values of an integer tree lie within this of zero. */
  function Bound(e: Expr): nat
    requires IsInt(e)
  {
    match e
    case Operand(_, w, signed) => if signed then Pow2(w - 1) else Pow2(w) - 1
    case IntLit(v) => if v < 0 then -v else v
    case Arith(op, _, l, r) =>
      ProductPositive(Bound(l), Bound(r));
      if op == Times then Bound(l) * Bound(r) else Bound(l) + Bound(r)
  }

  lemma ProductPositive(a: nat, b: nat)
    ensures a * b >= 0
  {
  }

  lemma ProductWithin(x: int, y: int, a: nat, b: nat)
    requires 0 - a <= x <= a && 0 - b <= y <= b
    ensures -(a * b) <= x * y <= a * b
  {
    var (p, q) := (if x < 0 then -x else x, if y < 0 then -y else y);
    assert p * q <= a * b by {
      assert p * q <= a * q;
      assert a * q <= a * b;
    }
    assert x * y == p * q || x * y == -(p * q) by {
      assert -p * q == -(p * q) && p * -q == -(p * q) && -p * -q == p * q;
    }
  }

  lemma {:induction false} BoundHolds(turbo: bool, world: World, e: Expr, trace: seq<nat>)
    requires IsInt(e)
    ensures 0 - Bound(e) <= Eval(turbo, world, e, trace).v <= Bound(e)
    ensures IsSimple(e) ==> ValueOf(e, Eval(turbo, world, e, trace).v)
  {
    match e
    case Operand(id, w, signed) =>
      WrapInterpret(signed, w, Wrap(w, world.operand(id, trace)));
    case IntLit(_) =>
    case Arith(op, _, l, r) =>
      var a := Eval(turbo, world, l, trace);
      BoundHolds(turbo, world, l, trace);
      BoundHolds(turbo, world, r, a.trace);
      ProductWithin(a.v, Eval(turbo, world, r, a.trace).v, Bound(l), Bound(r));
  }

  /** A signed 64-bit comparison reads every value of `e` as it is. */
  predicate FitsSigned(e: Expr)
    requires IsInt(e)
  {
    match e
    case Operand(_, w, signed) => signed || w < 64
    case IntLit(v) => !IsHigh(v)
    case _ => Bound(e) < Pow2(63)
  }

  /** What can be told of a tree before it runs: every comparison is between two
    * simple operands neither capped nor misread, or signed at 64 bits of operands that fit. */
  predicate Safe(e: Expr)
    requires IsInt(e) || IsBool(e)
  {
    match e
    case Relation(_, l, r) =>
      || (IsSimple(l) && IsSimple(r) && !Capped(l, r) && !Misread(l, r))
      || (UnifyOperands(l, r) == Target(64, true) && FitsSigned(l) && FitsSigned(r))
    case Not(x) => Safe(x)
    case Logic(_, _, l, r) => Safe(l) && Safe(r)
    case _ => true
  }

  lemma {:induction false} FitsSignedInRange(turbo: bool, world: World, e: Expr, trace: seq<nat>)
    requires IsInt(e) && FitsSigned(e)
    ensures InRange(true, 64, Eval(turbo, world, e, trace).v)
  {
    BoundHolds(turbo, world, e, trace);
    if e.Operand? {
      WiderInRange(e.signed, e.w, true, 64, Eval(turbo, world, e, trace).v);
    }
  }

  /** A safe tree is exact in every world. */
  lemma {:induction false} SafeIsExact(turbo: bool, world: World, e: Expr, trace: seq<nat>)
    requires (IsInt(e) || IsBool(e)) && Safe(e)
    ensures Exact(turbo, world, e, trace)
  {
    match e
    case Relation(_, l, r) =>
      SafeRelation(turbo, world, l, r, trace);
    case Not(x) => SafeIsExact(turbo, world, x, trace);
    case Logic(_, _, l, r) =>
      SafeIsExact(turbo, world, l, trace);
      SafeIsExact(turbo, world, r, Eval(turbo, world, l, trace).trace);
    case _ =>
  }

  lemma {:induction false} SafeRelation(turbo: bool, world: World, l: Expr, r: Expr, trace: seq<nat>)
    requires IsInt(l) && IsInt(r) && Safe(Relation(Equal, l, r))
    ensures UnifyOperands(l, r).w >= 1
    ensures var a := Eval(turbo, world, l, trace);
            OrderKept(UnifyOperands(l, r), a.v, Eval(turbo, world, r, a.trace).v)
  {
    hide OrderKept, Eval, InRange, FitsSigned, Capped, Misread;
    UnifiedWidth(l, r);
    var a := Eval(turbo, world, l, trace);
    var b := Eval(turbo, world, r, a.trace);
    if IsSimple(l) && IsSimple(r) && !Capped(l, r) && !Misread(l, r) {
      BoundHolds(turbo, world, l, trace);
      BoundHolds(turbo, world, r, a.trace);
      UnifiedInRange(l, r, a.v, b.v);
    } else {
      FitsSignedInRange(turbo, world, l, trace);
      FitsSignedInRange(turbo, world, r, a.trace);
    }
    InRangeKept(UnifyOperands(l, r), a.v, b.v);
  }
}
