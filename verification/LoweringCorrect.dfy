/** Emitted code means what the source expression means. */
module LoweringCorrect {
  import opened Bits
  import opened Ir
  import opened Lowering
  import opened LoweringCompare

  // ---- executing freshly emitted code ----

  /** The machine stands at the insertion point of `f`. */
  ghost predicate At(f: Fn, s: State)
    requires f.Valid()
  {
    s.blk == f.cur && s.pc == f.End() && forall k | k in s.regs :: k < f.next
  }

  ghost predicate Keeps(s: State, t: State) {
    forall k | k in s.regs :: k in t.regs && t.regs[k] == s.regs[k]
  }

  /** `g` was emitted on top of `f`, and running the difference takes `s` to `t`. */
  ghost predicate Emits(world: World, f: Fn, g: Fn, s: State, t: State) {
    && f.Open() && g.Open()
    && At(f, s) && At(g, t)
    && f.next <= g.next
    && Extends(f.code, g.code)
    && Reaches(world, g.code, s, t)
    && Keeps(s, t)
  }

  lemma {:induction false} EmitsNothing(world: World, f: Fn, s: State)
    requires f.Open() && At(f, s)
    ensures Emits(world, f, f, s, s)
  {
    assert Run(world, f.code, s, 0) == Some(s);
  }

  lemma {:induction false} EmitsTrans(world: World, f: Fn, g: Fn, h: Fn, s: State, t: State, u: State)
    requires Emits(world, f, g, s, t) && Emits(world, g, h, t, u)
    ensures Emits(world, f, h, s, u)
  {
    ExtendsTrans(f.code, g.code, h.code);
    ReachesExtends(world, g.code, h.code, s, t);
    ReachesTrans(world, h.code, s, t, u);
  }

  lemma {:induction false} EmitsAppend(world: World, f: Fn, i: Inst, s: State, t: State)
    requires f.Open() && At(f, s) && i.dst == f.next && Exec(world, s, i) == Some(t)
    ensures Emits(world, f, Append(f, i), s, t)
  {
    var g := Append(f, i);
    assert g.code[f.cur].insts[s.pc] == i;
    ReachesStep(world, g.code, s, t);
  }

  lemma {:induction false} LookupKeeps(s: State, t: State, v: Value)
    requires Keeps(s, t) && Lookup(s.regs, v).Some?
    ensures Lookup(t.regs, v) == Lookup(s.regs, v)
  {
  }

  // ---- conversions ----

  lemma {:induction false} CoerceCorrect(world: World, f: Fn, s: State, v: Value, w: nat, signed: bool, x: Val) returns (t: State)
    requires f.Open() && At(f, s) && w >= 1
    requires Lookup(s.regs, v) == Some(x) && x.w >= 1 && x.bits < Pow2(x.w)
    ensures var r := CoerceTo(f, v, w, signed);
            && Emits(world, f, r.f, s, t) && t.trace == s.trace
            && Lookup(t.regs, r.v) == Some(Val(w, Wrap(w, Interpret(signed, x.w, x.bits))))
  {
    WrapInterpret(signed, x.w, x.bits);
    if x.w == w {
      EmitsNothing(world, f, s);
      t := s;
    } else {
      var i := CoerceTo(f, v, w, signed).f.code[f.cur].insts[f.End()];
      if x.w > w {
        WrapWrap(x.w, w, Interpret(signed, x.w, x.bits));
      } else if !signed {
        Pow2Monotone(x.w, w);
        WrapId(w, x.bits);
      }
      t := Exec(world, s, i).value;
      EmitsAppend(world, f, i, s, t);
    }
  }

  lemma {:induction false} EnsureI1Correct(world: World, f: Fn, s: State, v: Value, x: Val) returns (t: State)
    requires f.Open() && At(f, s)
    requires Lookup(s.regs, v) == Some(x) && x.w >= 1 && x.bits < Pow2(x.w)
    ensures var r := EnsureI1(f, v);
            && Emits(world, f, r.f, s, t) && t.trace == s.trace
            && Lookup(t.regs, r.v) == Some(Val(1, FromBool(x.bits != 0)))
  {
    if x.w == 1 {
      assert Pow2(1) == 2 * Pow2(0);
      EmitsNothing(world, f, s);
      t := s;
    } else {
      WrapId(x.w, 0);
      var i := ICmp(f.next, NE, v, Imm(v.w, 0));
      t := Exec(world, s, i).value;
      EmitsAppend(world, f, i, s, t);
    }
  }

  // ---- expressions ----

  /** The register contents `x` stand for the source value `v` of `e`. */
  ghost predicate Represents(e: Expr, x: Val, v: int) {
    && x.w == EmittedWidth(e)
    && 1 <= x.w <= 64
    && x.bits < Pow2(x.w)
    && (if IsBool(e) then v == FromBool(x.bits != 0) else x.bits == Wrap(x.w, v))
    && (IsSimple(e) ==> ValueOf(e, v))
  }

  lemma {:induction false} EmitsEnds(world: World, f: Fn, g: Fn, s: State, t: State)
    requires Emits(world, f, g, s, t)
    ensures f.Open() && g.Open() && At(f, s) && At(g, t) && Keeps(s, t)
  {
  }

  lemma {:induction false} EmitsSnoc(world: World, f: Fn, g: Fn, i: Inst, s: State, t: State, u: State)
    requires Emits(world, f, g, s, t) && i.dst == g.next && Exec(world, t, i) == Some(u)
    ensures Emits(world, f, Append(g, i), s, u)
  {
    EmitsAppend(world, g, i, t, u);
    EmitsTrans(world, f, g, Append(g, i), s, t, u);
  }

  lemma {:induction false} RepresentsInterpreted(e: Expr, x: Val, v: int)
    requires IsInt(e) && Represents(e, x, v)
    ensures 1 <= x.w <= 64 && x.bits < Pow2(x.w)
    ensures IsSimple(e) ==> ValueOf(e, v)
    ensures Wrap(x.w, Interpret(OperandIsSigned(e), x.w, x.bits)) == Wrap(x.w, v)
    ensures IsSimple(e) ==> Interpret(OperandIsSigned(e), x.w, x.bits) == v
  {
    WrapInterpret(OperandIsSigned(e), x.w, x.bits);
    if IsSimple(e) {
      InterpretWrap(OperandIsSigned(e), x.w, v);
    }
  }

  lemma {:induction false} RepresentsAt(e: Expr, x: Val, v: int, w: nat)
    requires IsInt(e) && Represents(e, x, v) && (IsSimple(e) || w == 64)
    ensures 1 <= x.w <= 64 && x.bits < Pow2(x.w)
    ensures Wrap(w, Interpret(OperandIsSigned(e), x.w, x.bits)) == Wrap(w, v)
  {
    RepresentsInterpreted(e, x, v);
  }

  lemma {:induction false} ArithBits(op: ArithOp, a: int, b: int)
    ensures BinBits(ArithInst(op), 64, Wrap(64, a), Wrap(64, b)) == Wrap(64, ArithValue(op, a, b))
  {
    match op
    case Plus => WrapAdd(64, a, b);
    case Minus => WrapSub(64, a, b);
    case Times => WrapMul(64, a, b);
  }

  /** Two operands converted one after the other. */
  lemma {:induction false} PairCoerced(world: World, f: Fn, s: State, w: nat, l: Expr, lv: Value, x: Val, a: int,
                        r: Expr, rv: Value, y: Val, b: int) returns (t: State)
    requires f.Open() && At(f, s) && IsInt(l) && IsInt(r) && w >= 1 && ((IsSimple(l) && IsSimple(r)) || w == 64)
    requires Lookup(s.regs, lv) == Some(x) && Represents(l, x, a)
    requires Lookup(s.regs, rv) == Some(y) && Represents(r, y, b)
    ensures var c := CoerceTo(f, lv, w, OperandIsSigned(l));
            var d := CoerceTo(c.f, rv, w, OperandIsSigned(r));
            && Emits(world, f, d.f, s, t) && t.trace == s.trace
            && Lookup(t.regs, c.v) == Some(Val(w, Wrap(w, a))) && Lookup(t.regs, d.v) == Some(Val(w, Wrap(w, b)))
  {
    hide Emits, At, Keeps, CoerceTo, Wrap, Interpret, Reaches, Represents, Lookup;
    RepresentsAt(l, x, a, w);
    RepresentsAt(r, y, b, w);
    var c := CoerceTo(f, lv, w, OperandIsSigned(l));
    var t1 := CoerceCorrect(world, f, s, lv, w, OperandIsSigned(l), x);
    EmitsEnds(world, f, c.f, s, t1);
    LookupKeeps(s, t1, rv);
    var d := CoerceTo(c.f, rv, w, OperandIsSigned(r));
    t := CoerceCorrect(world, c.f, t1, rv, w, OperandIsSigned(r), y);
    EmitsEnds(world, c.f, d.f, t1, t);
    LookupKeeps(t1, t, c.v);
    EmitsTrans(world, f, c.f, d.f, s, t1, t);
  }

  lemma {:induction false} ArithCorrect(world: World, f: Fn, s: State, op: ArithOp, l: Expr, lv: Value, x: Val, a: int,
                     r: Expr, rv: Value, y: Val, b: int) returns (t: State)
    requires f.Open() && At(f, s) && IsInt(l) && IsInt(r)
    requires Lookup(s.regs, lv) == Some(x) && Represents(l, x, a)
    requires Lookup(s.regs, rv) == Some(y) && Represents(r, y, b)
    ensures var m := EmitArith(f, op, lv, OperandIsSigned(l), rv, OperandIsSigned(r));
            && Emits(world, f, m.f, s, t) && t.trace == s.trace
            && Lookup(t.regs, m.v) == Some(Val(64, Wrap(64, ArithValue(op, a, b))))
  {
    hide Emits, At, Keeps, CoerceTo, ToI64, Wrap, BinBits, ArithValue, Reaches, Represents;
    var c := CoerceTo(f, lv, 64, OperandIsSigned(l));
    var d := CoerceTo(c.f, rv, 64, OperandIsSigned(r));
    RepresentsAt(l, x, a, 64);
    RepresentsAt(r, y, b, 64);
    WidensAsCoerces(f, lv, OperandIsSigned(l));
    WidensAsCoerces(c.f, rv, OperandIsSigned(r));
    var t1 := PairCoerced(world, f, s, 64, l, lv, x, a, r, rv, y, b);
    EmitsEnds(world, f, d.f, s, t1);
    ArithBits(op, a, b);
    var i := Bin(d.f.next, ArithInst(op), c.v, d.v);
    t := Exec(world, t1, i).value;
    EmitsSnoc(world, f, d.f, i, s, t1, t);
  }

  lemma WidensAsCoerces(f: Fn, v: Value, signed: bool)
    requires f.Valid() && v.w <= 64
    ensures ToI64(f, v, signed) == CoerceTo(f, v, 64, signed)
  {
  }

  lemma {:induction false} RelationCorrect(world: World, f: Fn, s: State, op: RelOp, l: Expr, lv: Value, x: Val, a: int,
                        r: Expr, rv: Value, y: Val, b: int) returns (t: State)
    requires f.Open() && At(f, s) && IsInt(l) && IsInt(r)
    requires Lookup(s.regs, lv) == Some(x) && Represents(l, x, a)
    requires Lookup(s.regs, rv) == Some(y) && Represents(r, y, b)
    ensures var m := EmitRelation(f, op, UnifyOperands(l, r), lv, OperandIsSigned(l), rv, OperandIsSigned(r));
            && Emits(world, f, m.f, s, t) && t.trace == s.trace
            && Lookup(t.regs, m.v) == Some(Val(1, FromBool(EmittedRelation(l, r, op, a, b))))
  {
    hide Emits, At, Keeps, CoerceTo, Wrap, Reaches, Represents, UnifyOperands, RelPred, Compare;
    var target := UnifyOperands(l, r);
    UnifiedWidth(l, r);
    var c := CoerceTo(f, lv, target.w, OperandIsSigned(l));
    var d := CoerceTo(c.f, rv, target.w, OperandIsSigned(r));
    var t1 := PairCoerced(world, f, s, target.w, l, lv, x, a, r, rv, y, b);
    EmitsEnds(world, f, d.f, s, t1);
    var i := ICmp(d.f.next, RelPred(op, target.signed), c.v, d.v);
    t := Exec(world, t1, i).value;
    EmitsSnoc(world, f, d.f, i, s, t1, t);
  }

  // ---- blocks ----

  /** `g` was emitted on top of `f`: only the insertion block and new blocks differ. */
  ghost predicate Grows(f: Fn, g: Fn) {
    && f.Open() && g.Open()
    && f.next <= g.next
    && |f.code| <= |g.code|
    && (g.cur == f.cur || g.cur >= |f.code|)
    && f.code[f.cur].insts <= g.code[f.cur].insts
    && forall i | 0 <= i < |f.code| && i != f.cur :: g.code[i] == f.code[i]
  }

  lemma {:induction false} GrowsTrans(f: Fn, g: Fn, h: Fn)
    requires Grows(f, g) && Grows(g, h)
    ensures Grows(f, h)
  {
    assert f.code[f.cur].insts <= g.code[f.cur].insts <= h.code[f.cur].insts;
  }

  lemma {:induction false} GrowsExtends(f: Fn, g: Fn)
    requires Grows(f, g)
    ensures f.Open() && g.Open() && f.next <= g.next && Extends(f.code, g.code)
  {
  }

  lemma {:induction false} GrowsAppend(f: Fn, g: Fn, i: Inst)
    requires Grows(f, g)
    ensures Grows(f, Append(g, i))
  {
    assert Grows(g, Append(g, i));
    GrowsTrans(f, g, Append(g, i));
  }

  const EMPTY := Block([], Unterminated)

  lemma {:induction false} OpenShape(x: Fn, lv: Value, isAnd: bool)
    requires x.Open()
    ensures var g := OpenShortCircuit(x, lv, isAnd);
            var (rhsBB, shortBB) := (|x.code|, |x.code| + 2);
            && g.Open() && g.cur == rhsBB && g.next == x.next
            && g.code == x.code[x.cur := Block(x.code[x.cur].insts,
                 CondBr(lv, if isAnd then rhsBB else shortBB, if isAnd then shortBB else rhsBB))] + [EMPTY, EMPTY, EMPTY]
  {
    assert [EMPTY] + [EMPTY] + [EMPTY] == [EMPTY, EMPTY, EMPTY];
  }

  function JoinPhi(y: Fn, rv: Value, shortBB: nat, isAnd: bool): Inst {
    Phi(y.next, [(shortBB, Imm(1, FromBool(!isAnd))), (y.cur, rv)])
  }

  lemma {:induction false} CloseShape(y: Fn, rv: Value, endBB: nat, shortBB: nat, isAnd: bool)
    requires y.Open() && endBB < |y.code| && shortBB < |y.code|
    requires y.cur != endBB && y.cur != shortBB && endBB != shortBB
    requires y.code[endBB] == EMPTY && y.code[shortBB] == EMPTY
    ensures var h := CloseShortCircuit(y, rv, endBB, shortBB, isAnd).f;
            && h.cur == endBB && h.next == y.next + 1
            && h.code == y.code[y.cur := Block(y.code[y.cur].insts, Br(endBB))][shortBB := Block([], Br(endBB))]
                         [endBB := Block([JoinPhi(y, rv, shortBB, isAnd)], Unterminated)]
  {
    var phi0 := Phi(y.next, []);
    var phi1 := phi0.(incoming := [(shortBB, Imm(1, FromBool(!isAnd)))]);
    var phi2 := JoinPhi(y, rv, shortBB, isAnd);
    assert [] + [phi0] == [phi0];
    assert [phi0][0 := phi1] == [phi1] && [phi1][0 := phi2] == [phi2];
    assert phi0.incoming + [(shortBB, Imm(1, FromBool(!isAnd)))] == phi1.incoming;
    assert phi1.incoming + [(y.cur, rv)] == phi2.incoming;
  }

  /** A finished short circuit: `x` is where the left operand ended, `y` where the right one did. */
  lemma {:induction false} ShortCircuitGrows(x: Fn, lv: Value, y: Fn, rv: Value, isAnd: bool)
    requires x.Open() && Grows(OpenShortCircuit(x, lv, isAnd), y)
    ensures var g := OpenShortCircuit(x, lv, isAnd);
            var (endBB, shortBB) := (|x.code| + 1, |x.code| + 2);
            var h := CloseShortCircuit(y, rv, endBB, shortBB, isAnd).f;
            && y.Open() && |x.code| + 3 <= |y.code| && y.cur != endBB && y.cur != shortBB
            && y.code[endBB] == EMPTY && y.code[shortBB] == EMPTY
            && Extends(x.code, g.code) && Extends(g.code, y.code) && Extends(y.code, h.code) && Grows(x, h)
  {
    hide OpenShortCircuit, CloseShortCircuit;
    OpenShape(x, lv, isAnd);
    CloseShape(y, rv, |x.code| + 1, |x.code| + 2, isAnd);
    GrowsExtends(OpenShortCircuit(x, lv, isAnd), y);
  }

  lemma {:induction false} EmitGrows(turbo: bool, f: Fn, e: Expr)
    requires f.Open()
    ensures Grows(f, EmitExpr(turbo, f, e).f)
    decreases e, 2
  {
    match e
    case IntLit(_) =>
    case Operand(id, w, _) => GrowsAppend(f, f, Ir.Operand(f.next, w, id));
    case BoolOperand(id, w) => GrowsAppend(f, f, Ir.Operand(f.next, w, id));
    case Arith(op, _, l, r) =>
      var x, y := PairGrows(turbo, f, e, l, r);
      ArithGrows(f, y.f, op, x.v, OperandIsSigned(l), y.v, OperandIsSigned(r));
    case Relation(op, l, r) =>
      var x, y := PairGrows(turbo, f, e, l, r);
      RelationGrows(f, y.f, op, UnifyOperands(l, r), x.v, OperandIsSigned(l), y.v, OperandIsSigned(r));
    case Not(b) =>
      I1Grows(turbo, f, b);
      var x := EmitI1(turbo, f, b);
      GrowsAppend(f, x.f, Ir.Not(x.f.next, x.v));
    case Logic(op, full, l, r) =>
      LogicGrows(turbo, f, op, full, l, r);
  }

  lemma {:induction false} PairGrows(turbo: bool, f: Fn, e: Expr, l: Expr, r: Expr) returns (x: Emitted, y: Emitted)
    requires f.Open() && (e.Arith? || e.Relation?) && l == e.left && r == e.right
    ensures x == EmitExpr(turbo, f, l) && y == EmitExpr(turbo, x.f, r)
    ensures Grows(f, x.f) && Grows(f, y.f)
    decreases e, 0
  {
    hide Grows;
    x := EmitExpr(turbo, f, l);
    EmitGrows(turbo, f, l);
    GrowsExtends(f, x.f);
    y := EmitExpr(turbo, x.f, r);
    EmitGrows(turbo, x.f, r);
    GrowsTrans(f, x.f, y.f);
  }

  /** How a connective is emitted, given its operands. */
  lemma {:induction false} LogicEmits(turbo: bool, f: Fn, op: LogicOp, full: bool, l: Expr, r: Expr)
    requires f.Valid()
    ensures var x := EmitI1(turbo, f, l);
            EmitExpr(turbo, f, Logic(op, full, l, r)) ==
            if ShortCircuits(turbo, op, full) then
              var y := EmitI1(turbo, OpenShortCircuit(x.f, x.v, IsAnd(op)), r);
              CloseShortCircuit(y.f, y.v, |x.f.code| + 1, |x.f.code| + 2, IsAnd(op))
            else
              var y := EmitI1(turbo, x.f, r);
              EmitLogic(y.f, IsAnd(op), x.v, y.v)
  {
    hide OpenShortCircuit, CloseShortCircuit, EmitLogic, EmitI1, Append;
  }

  lemma {:induction false} LogicGrows(turbo: bool, f: Fn, op: LogicOp, full: bool, l: Expr, r: Expr)
    requires f.Open()
    ensures Grows(f, EmitExpr(turbo, f, Logic(op, full, l, r)).f)
    decreases Logic(op, full, l, r), 0
  {
    hide Grows, OpenShortCircuit, CloseShortCircuit, EmitI1, EmitExpr, Append, Extends;
    LogicEmits(turbo, f, op, full, l, r);
    I1Grows(turbo, f, l);
    var x := EmitI1(turbo, f, l);
    GrowsExtends(f, x.f);
    if ShortCircuits(turbo, op, full) {
      var g := OpenShortCircuit(x.f, x.v, IsAnd(op));
      OpenShape(x.f, x.v, IsAnd(op));
      I1Grows(turbo, g, r);
      var y := EmitI1(turbo, g, r);
      ShortCircuitGrows(x.f, x.v, y.f, y.v, IsAnd(op));
      GrowsTrans(f, x.f, CloseShortCircuit(y.f, y.v, |x.f.code| + 1, |x.f.code| + 2, IsAnd(op)).f);
    } else {
      I1Grows(turbo, x.f, r);
      var y := EmitI1(turbo, x.f, r);
      GrowsTrans(f, x.f, y.f);
      GrowsAppend(f, y.f, Bin(y.f.next, if IsAnd(op) then BinOp.And else BinOp.Or, x.v, y.v));
    }
  }

  lemma {:induction false} I1Grows(turbo: bool, f: Fn, e: Expr)
    requires f.Open()
    ensures Grows(f, EmitI1(turbo, f, e).f)
    decreases e, 3
  {
    EmitGrows(turbo, f, e);
    var x := EmitExpr(turbo, f, e);
    GrowsAppend(f, x.f, ICmp(x.f.next, NE, x.v, Imm(x.v.w, 0)));
  }

  lemma {:induction false} CoerceGrows(f: Fn, g: Fn, v: Value, w: nat, signed: bool)
    requires Grows(f, g)
    ensures Grows(f, CoerceTo(g, v, w, signed).f)
  {
    if v.w != w {
      GrowsAppend(f, g, CoerceTo(g, v, w, signed).f.code[g.cur].insts[g.End()]);
    }
  }

  lemma {:induction false} ArithGrows(f: Fn, g: Fn, op: ArithOp, lv: Value, ls: bool, rv: Value, rs: bool)
    requires Grows(f, g) && g.Valid()
    ensures Grows(f, EmitArith(g, op, lv, ls, rv, rs).f)
  {
    hide Grows;
    var a := ToI64(g, lv, ls);
    ToI64Grows(f, g, lv, ls);
    var b := ToI64(a.f, rv, rs);
    ToI64Grows(f, a.f, rv, rs);
    GrowsAppend(f, b.f, Bin(b.f.next, ArithInst(op), a.v, b.v));
  }

  lemma {:induction false} ToI64Grows(f: Fn, g: Fn, v: Value, signed: bool)
    requires Grows(f, g)
    ensures Grows(f, ToI64(g, v, signed).f)
  {
    if v.w != 64 {
      GrowsAppend(f, g, ToI64(g, v, signed).f.code[g.cur].insts[g.End()]);
    }
  }

  lemma {:induction false} RelationGrows(f: Fn, g: Fn, op: RelOp, t: Target, lv: Value, ls: bool, rv: Value, rs: bool)
    requires Grows(f, g) && g.Valid()
    ensures Grows(f, EmitRelation(g, op, t, lv, ls, rv, rs).f)
  {
    hide Grows;
    var a := CoerceTo(g, lv, t.w, ls);
    CoerceGrows(f, g, lv, t.w, ls);
    var b := CoerceTo(a.f, rv, t.w, rs);
    CoerceGrows(f, a.f, rv, t.w, rs);
    GrowsAppend(f, b.f, ICmp(b.f.next, RelPred(op, t.signed), a.v, b.v));
  }

  // ---- the theorem ----

  /** A finished short circuit runs its right operand exactly when the left one does not decide. */
  lemma {:induction false} ShortCircuitSkips(world: World, x: Fn, lv: Value, y: Fn, rv: Value, isAnd: bool, s: State) returns (t: State)
    requires x.Open() && At(x, s) && Grows(OpenShortCircuit(x, lv, isAnd), y)
    requires Lookup(s.regs, lv) == Some(Val(1, FromBool(!isAnd)))
    ensures var h := CloseShortCircuit(y, rv, |x.code| + 1, |x.code| + 2, isAnd);
            && Emits(world, x, h.f, s, t) && t.trace == s.trace
            && Lookup(t.regs, h.v) == Some(Val(1, FromBool(!isAnd)))
            && t.prev == |x.code| + 2
  {
    hide OpenShortCircuit, CloseShortCircuit, Extends, Reaches;
    var g := OpenShortCircuit(x, lv, isAnd);
    var h := CloseShortCircuit(y, rv, |x.code| + 1, |x.code| + 2, isAnd);
    ShortCircuitGrows(x, lv, y, rv, isAnd);
    OpenShape(x, lv, isAnd);
    CloseShape(y, rv, |x.code| + 1, |x.code| + 2, isAnd);
    GrowsExtends(x, h.f);
    ExtendsTrans(g.code, y.code, h.f.code);
    ClosedStays(g.code, h.f.code, x.cur);
    var s2 := SkipSteps(world, h.f.code, s, x.cur, lv, isAnd, |x.code|);
    Pow2One();
    t := JoinStep(world, y, rv, |x.code| + 1, |x.code| + 2, isAnd, s2, Val(1, FromBool(!isAnd)));
    ReachesTrans(world, h.f.code, s, s2, t);
  }

  lemma ClosedStays(c: seq<Block>, d: seq<Block>, i: nat)
    requires Extends(c, d) && i < |c| && c[i].term != Unterminated
    ensures i < |d| && d[i] == c[i]
  {
  }

  /** From the branch of a deciding left operand by the skip block to the end block. */
  lemma {:induction false} SkipSteps(world: World, code: seq<Block>, s: State, at: nat, lv: Value, isAnd: bool, n: nat) returns (t: State)
    requires at < n && n + 2 < |code| && s.blk == at && s.pc == |code[at].insts|
    requires code[at].term == CondBr(lv, if isAnd then n else n + 2, if isAnd then n + 2 else n)
    requires code[n + 2] == Block([], Br(n + 1)) && Lookup(s.regs, lv) == Some(Val(1, FromBool(!isAnd)))
    ensures Reaches(world, code, s, t) && t == Jump(Jump(s, n + 2), n + 1)
  {
    hide Reaches;
    var s1 := Jump(s, n + 2);
    t := Jump(s1, n + 1);
    ReachesStep(world, code, s, s1);
    ReachesStep(world, code, s1, t);
    ReachesTrans(world, code, s, s1, t);
  }

  lemma {:induction false} Pow2One()
    ensures Pow2(1) == 2
    ensures forall b :: Wrap(1, FromBool(b)) == FromBool(b)
  {
    assert Pow2(1) == 2 * Pow2(0);
  }

  lemma {:induction false} JoinStep(world: World, y: Fn, rv: Value, endBB: nat, shortBB: nat, isAnd: bool, s: State, x: Val) returns (t: State)
    requires y.Open() && endBB < |y.code| && shortBB < |y.code|
    requires y.cur != endBB && y.cur != shortBB && endBB != shortBB
    requires y.code[endBB] == EMPTY && y.code[shortBB] == EMPTY
    requires s.blk == endBB && s.pc == 0 && forall k | k in s.regs :: k < y.next
    requires s.prev == shortBB || s.prev == y.cur
    requires Lookup(s.regs, if s.prev == shortBB then Imm(1, FromBool(!isAnd)) else rv) == Some(x) && x.w == 1
    ensures var h := CloseShortCircuit(y, rv, endBB, shortBB, isAnd);
            && h.f.Open() && At(h.f, t) && Reaches(world, h.f.code, s, t)
            && Keeps(s, t) && t.trace == s.trace && t.prev == s.prev && Lookup(t.regs, h.v) == Some(x)
  {
    hide CloseShortCircuit;
    var h := CloseShortCircuit(y, rv, endBB, shortBB, isAnd);
    CloseShape(y, rv, endBB, shortBB, isAnd);
    assert h.v == Reg(y.next, 1) by { CloseValue(y, rv, endBB, shortBB, isAnd); }
    var phi := JoinPhi(y, rv, shortBB, isAnd);
    assert phi.incoming[1..] == [(y.cur, rv)];
    assert Incoming(phi.incoming[1..], y.cur) == Some(rv);
    assert h.f.code[endBB].insts[0] == phi;
    t := Exec(world, s, phi).value;
    ReachesStep(world, h.f.code, s, t);
  }

  lemma {:induction false} CloseValue(y: Fn, rv: Value, endBB: nat, shortBB: nat, isAnd: bool)
    requires y.Valid() && endBB < |y.code| && shortBB < |y.code|
    ensures CloseShortCircuit(y, rv, endBB, shortBB, isAnd).v == Reg(y.next, 1)
  {
  }

  lemma {:induction false} ShortCircuitEnters(world: World, x: Fn, lv: Value, isAnd: bool, s: State) returns (t: State)
    requires x.Open() && At(x, s) && Lookup(s.regs, lv) == Some(Val(1, FromBool(isAnd)))
    ensures var g := OpenShortCircuit(x, lv, isAnd);
            && g.Open() && At(g, t) && Reaches(world, g.code, s, t) && t.trace == s.trace && t.regs == s.regs
  {
    OpenShape(x, lv, isAnd);
    t := Jump(s, |x.code|);
    ReachesStep(world, OpenShortCircuit(x, lv, isAnd).code, s, t);
  }

  lemma {:induction false} ShortCircuitJoins(world: World, x: Fn, lv: Value, y: Fn, rv: Value, isAnd: bool, s: State, u: State, v: Val)
    returns (t: State)
    requires x.Open() && At(x, s) && Grows(OpenShortCircuit(x, lv, isAnd), y)
    requires At(y, u) && Keeps(s, u) && Reaches(world, y.code, s, u)
    requires Lookup(u.regs, rv) == Some(v) && v.w == 1
    ensures var h := CloseShortCircuit(y, rv, |x.code| + 1, |x.code| + 2, isAnd);
            && Emits(world, x, h.f, s, t) && t.trace == u.trace && Lookup(t.regs, h.v) == Some(v)
            && t.prev == y.cur
  {
    hide OpenShortCircuit, CloseShortCircuit;
    var h := CloseShortCircuit(y, rv, |x.code| + 1, |x.code| + 2, isAnd);
    ShortCircuitGrows(x, lv, y, rv, isAnd);
    CloseShape(y, rv, |x.code| + 1, |x.code| + 2, isAnd);
    GrowsExtends(x, h.f);
    ReachesExtends(world, y.code, h.f.code, s, u);
    var u1 := Jump(u, |x.code| + 1);
    ReachesStep(world, h.f.code, u, u1);
    t := JoinStep(world, y, rv, |x.code| + 1, |x.code| + 2, isAnd, u1, v);
    ReachesTrans(world, h.f.code, s, u, u1);
    ReachesTrans(world, h.f.code, s, u1, t);
  }

  /** Running the emitted blocks from the insertion point reaches the final
    * insertion point, having evaluated exactly the source's operands in the
    * source's order, with the source value in the returned IR value. */
  lemma {:induction false} EmitCorrect(turbo: bool, world: World, f: Fn, e: Expr, s: State) returns (t: State, x: Val)
    requires f.Open() && At(f, s) && (IsInt(e) || IsBool(e)) && Exact(turbo, world, e, s.trace)
    ensures var r := EmitExpr(turbo, f, e);
            && Emits(world, f, r.f, s, t)
            && t.trace == Eval(turbo, world, e, s.trace).trace
            && Lookup(t.regs, r.v) == Some(x)
            && Represents(e, x, Eval(turbo, world, e, s.trace).v)
    decreases e, 3
  {
    hide Emits, At, Represents, Eval, EmitExpr;
    match e
    case IntLit(v) => t, x := LiteralCorrect(turbo, world, f, e, s);
    case Operand(id, w, signed) => t, x := OperandCorrect(turbo, world, f, e, id, w, s);
    case BoolOperand(id, w) => t, x := OperandCorrect(turbo, world, f, e, id, w, s);
    case Arith(op, _, l, r) => t, x := ArithTreeCorrect(turbo, world, f, e, s);
    case Relation(op, l, r) => t, x := ComparisonCorrect(turbo, world, f, e, s);
    case Not(b) => t, x := NotCorrect(turbo, world, f, b, s);
    case Logic(op, full, l, r) => t, x := LogicCorrect(turbo, world, f, op, full, l, r, s);
  }

  /** What `EmitCorrect` says of one expression. */
  ghost predicate EmittedRight(turbo: bool, world: World, f: Fn, e: Expr, s: State, t: State, x: Val)
    requires f.Valid() && (IsInt(e) || IsBool(e))
  {
    var r := EmitExpr(turbo, f, e);
    && Emits(world, f, r.f, s, t)
    && t.trace == Eval(turbo, world, e, s.trace).trace
    && Lookup(t.regs, r.v) == Some(x)
    && Represents(e, x, Eval(turbo, world, e, s.trace).v)
  }

  lemma {:induction false} LiteralCorrect(turbo: bool, world: World, f: Fn, e: Expr, s: State) returns (t: State, x: Val)
    requires f.Open() && At(f, s) && e.IntLit? && IsInt(e)
    ensures EmittedRight(turbo, world, f, e, s, t, x)
  {
    EmitsNothing(world, f, s);
    t, x := s, Val(64, Wrap(64, e.v));
  }

  lemma {:induction false} OperandCorrect(turbo: bool, world: World, f: Fn, e: Expr, id: nat, w: nat, s: State) returns (t: State, x: Val)
    requires f.Open() && At(f, s) && (e.Operand? || e.BoolOperand?) && e.id == id && e.w == w && (IsInt(e) || IsBool(e))
    ensures EmittedRight(turbo, world, f, e, s, t, x)
  {
    var i := Ir.Operand(f.next, w, id);
    x := Val(w, Wrap(w, world.operand(id, s.trace)));
    t := Exec(world, s, i).value;
    EmitsAppend(world, f, i, s, t);
    if e.Operand? {
      WrapInterpret(e.signed, w, x.bits);
    }
  }

  lemma {:induction false} ArithTreeCorrect(turbo: bool, world: World, f: Fn, e: Expr, s: State) returns (t: State, x: Val)
    requires f.Open() && At(f, s) && e.Arith? && IsInt(e)
    ensures EmittedRight(turbo, world, f, e, s, t, x)
    decreases e, 1
  {
    hide Emits, At, Extends, Reaches, EmitArith, ArithValue;
    var lv, x1, rv, x2, s2 := PairCorrect(turbo, world, f, e, e.left, e.right, s);
    EmitsEnds(world, f, rv.f, s, s2);
    var a := Eval(turbo, world, e.left, s.trace);
    var b := Eval(turbo, world, e.right, a.trace);
    t := ArithCorrect(world, rv.f, s2, e.aop, e.left, lv.v, x1, a.v, e.right, rv.v, x2, b.v);
    x := Val(64, Wrap(64, ArithValue(e.aop, a.v, b.v)));
    EmitsTrans(world, f, rv.f, EmitExpr(turbo, f, e).f, s, s2, t);
  }

  lemma {:induction false} ComparisonCorrect(turbo: bool, world: World, f: Fn, e: Expr, s: State) returns (t: State, x: Val)
    requires f.Open() && At(f, s) && e.Relation? && IsBool(e) && Exact(turbo, world, e, s.trace)
    ensures EmittedRight(turbo, world, f, e, s, t, x)
    decreases e, 1
  {
    hide Emits, At, Extends, Reaches, EmitRelation, UnifyOperands, Represents, Relates, EmittedRelation;
    var lv, x1, rv, x2, s2 := PairCorrect(turbo, world, f, e, e.left, e.right, s);
    EmitsEnds(world, f, rv.f, s, s2);
    var a := Eval(turbo, world, e.left, s.trace);
    var b := Eval(turbo, world, e.right, a.trace);
    UnifiedWidth(e.left, e.right);
    t := RelationCorrect(world, rv.f, s2, e.rop, e.left, lv.v, x1, a.v, e.right, rv.v, x2, b.v);
    x := Val(1, FromBool(Relates(e.rop, a.v, b.v)));
    RelationRepresents(e, x, a.v, b.v);
    EmitsTrans(world, f, rv.f, EmitExpr(turbo, f, e).f, s, s2, t);
  }

  lemma {:induction false} RelationRepresents(e: Expr, x: Val, a: int, b: int)
    requires e.Relation? && IsBool(e) && UnifyOperands(e.left, e.right).w >= 1
    requires OrderKept(UnifyOperands(e.left, e.right), a, b)
    requires x == Val(1, FromBool(Relates(e.rop, a, b)))
    ensures EmittedRelation(e.left, e.right, e.rop, a, b) == Relates(e.rop, a, b)
    ensures Represents(e, x, FromBool(Relates(e.rop, a, b)))
  {
    ComparisonRight(e.left, e.right, a, b);
    Pow2One();
  }

  lemma {:induction false} PairCorrect(turbo: bool, world: World, f: Fn, e: Expr, l: Expr, r: Expr, s: State)
    returns (lv: Emitted, x: Val, rv: Emitted, y: Val, t: State)
    requires f.Open() && At(f, s) && (e.Arith? || e.Relation?) && l == e.left && r == e.right
    requires IsInt(l) && IsInt(r)
    ensures var a := Eval(turbo, world, l, s.trace);
            var b := Eval(turbo, world, r, a.trace);
            && lv == EmitExpr(turbo, f, l) && rv == EmitExpr(turbo, lv.f, r)
            && Emits(world, f, rv.f, s, t) && t.trace == b.trace
            && Lookup(t.regs, lv.v) == Some(x) && Represents(l, x, a.v)
            && Lookup(t.regs, rv.v) == Some(y) && Represents(r, y, b.v)
    decreases e, 0
  {
    hide Represents;
    lv := EmitExpr(turbo, f, l);
    var s1;
    s1, x := EmitCorrect(turbo, world, f, l, s);
    rv := EmitExpr(turbo, lv.f, r);
    t, y := EmitCorrect(turbo, world, lv.f, r, s1);
    EmitsTrans(world, f, lv.f, rv.f, s, s1, t);
    LookupKeeps(s1, t, lv.v);
  }

  lemma {:induction false} I1Correct(turbo: bool, world: World, f: Fn, e: Expr, s: State) returns (t: State)
    requires f.Open() && At(f, s) && IsBool(e) && Exact(turbo, world, e, s.trace)
    ensures var r := EmitI1(turbo, f, e);
            var v := Eval(turbo, world, e, s.trace);
            && Emits(world, f, r.f, s, t) && t.trace == v.trace
            && v.v in {0, 1} && Lookup(t.regs, r.v) == Some(Val(1, v.v))
    decreases e, 4
  {
    var m := EmitExpr(turbo, f, e);
    var s1, x := EmitCorrect(turbo, world, f, e, s);
    t := EnsureI1Correct(world, m.f, s1, m.v, x);
    EmitsTrans(world, f, m.f, EnsureI1(m.f, m.v).f, s, s1, t);
  }

  lemma {:induction false} BoolRepresents(e: Expr, v: nat)
    requires IsBool(e) && EmittedWidth(e) == 1 && !IsSimple(e) && v <= 1
    ensures Represents(e, Val(1, v), v)
  {
    Pow2One();
  }

  lemma {:induction false} NotCorrect(turbo: bool, world: World, f: Fn, b: Expr, s: State) returns (t: State, x: Val)
    requires f.Open() && At(f, s) && IsBool(b) && Exact(turbo, world, b, s.trace)
    ensures EmittedRight(turbo, world, f, Expr.Not(b), s, t, x)
    decreases Expr.Not(b), 1
  {
    hide Emits, At, Represents, Eval, EmitExpr, EmitI1, EmitNot;
    var m := EmitI1(turbo, f, b);
    var s1 := I1Correct(turbo, world, f, b, s);
    EmitsEnds(world, f, m.f, s, s1);
    NotUnfolds(turbo, world, f, b, s.trace);
    var v := Eval(turbo, world, b, s.trace).v;
    t := NotStep(world, m.f, m.v, v, s1);
    EmitsTrans(world, f, m.f, EmitNot(m.f, m.v).f, s, s1, t);
    x := Val(1, 1 - v);
    BoolRepresents(Expr.Not(b), 1 - v);
  }

  lemma {:induction false} NotUnfolds(turbo: bool, world: World, f: Fn, b: Expr, trace: seq<nat>)
    requires f.Valid() && IsBool(b)
    ensures var m := EmitI1(turbo, f, b);
            EmitExpr(turbo, f, Expr.Not(b)) == EmitNot(m.f, m.v)
    ensures var v := Eval(turbo, world, b, trace);
            Eval(turbo, world, Expr.Not(b), trace) == Outcome(1 - v.v, v.trace)
  {
  }

  lemma {:induction false} NotStep(world: World, f: Fn, v: Value, a: nat, s: State) returns (t: State)
    requires f.Open() && At(f, s) && a <= 1 && Lookup(s.regs, v) == Some(Val(1, a))
    ensures Emits(world, f, EmitNot(f, v).f, s, t) && t.trace == s.trace
    ensures Lookup(t.regs, EmitNot(f, v).v) == Some(Val(1, 1 - a))
  {
    WrapMinus(1, -1);
    WrapMinus(1, -2);
    Pow2One();
    var i := Ir.Not(f.next, v);
    t := Exec(world, s, i).value;
    EmitsAppend(world, f, i, s, t);
  }

  /** How a connective is emitted and what it means, given its operands. */
  lemma {:induction false} LogicUnfolds(turbo: bool, world: World, f: Fn, op: LogicOp, full: bool, l: Expr, r: Expr, trace: seq<nat>)
    requires f.Valid() && IsBool(l) && IsBool(r)
    ensures var x := EmitI1(turbo, f, l);
            EmitExpr(turbo, f, Logic(op, full, l, r)) ==
            if ShortCircuits(turbo, op, full) then
              var y := EmitI1(turbo, OpenShortCircuit(x.f, x.v, IsAnd(op)), r);
              CloseShortCircuit(y.f, y.v, |x.f.code| + 1, |x.f.code| + 2, IsAnd(op))
            else
              var y := EmitI1(turbo, x.f, r);
              EmitLogic(y.f, IsAnd(op), x.v, y.v)
    ensures var a := Eval(turbo, world, l, trace);
            var b := Eval(turbo, world, r, a.trace);
            Eval(turbo, world, Logic(op, full, l, r), trace) ==
            if ShortCircuits(turbo, op, full) && a.v == FromBool(!IsAnd(op)) then a
            else if ShortCircuits(turbo, op, full) then b
            else Outcome(FromBool(if IsAnd(op) then a.v == 1 && b.v == 1 else a.v == 1 || b.v == 1), b.trace)
  {
    hide OpenShortCircuit, CloseShortCircuit, EmitLogic, EmitI1, EmitExpr;
    LogicEmits(turbo, f, op, full, l, r);
  }

  lemma {:induction false} LogicCorrect(turbo: bool, world: World, f: Fn, op: LogicOp, full: bool, l: Expr, r: Expr, s: State)
    returns (t: State, x: Val)
    requires f.Open() && At(f, s) && IsBool(l) && IsBool(r) && Exact(turbo, world, Logic(op, full, l, r), s.trace)
    ensures EmittedRight(turbo, world, f, Logic(op, full, l, r), s, t, x)
    decreases Logic(op, full, l, r), 1
  {
    hide OpenShortCircuit, CloseShortCircuit, EmitLogic, EmitI1, Represents, Emits, At, Eval, EmitExpr;
    LogicUnfolds(turbo, world, f, op, full, l, r, s.trace);
    var lv := EmitI1(turbo, f, l);
    var s1 := I1Correct(turbo, world, f, l, s);
    EmitsEnds(world, f, lv.f, s, s1);
    var v := Eval(turbo, world, Logic(op, full, l, r), s.trace).v;
    var a := Eval(turbo, world, l, s.trace).v;
    if ShortCircuits(turbo, op, full) {
      t := ShortCircuitCorrect(turbo, world, lv.f, lv.v, IsAnd(op), r, s1, a);
    } else {
      t := FullCorrect(turbo, world, lv.f, lv.v, IsAnd(op), r, s1, a);
    }
    EmitsTrans(world, f, lv.f, EmitExpr(turbo, f, Logic(op, full, l, r)).f, s, s1, t);
    x := Val(1, v);
    BoolRepresents(Logic(op, full, l, r), v);
  }

  lemma {:induction false} ShortCircuitCorrect(turbo: bool, world: World, f: Fn, lv: Value, isAnd: bool, r: Expr, s: State, a: nat)
    returns (t: State)
    requires f.Open() && At(f, s) && IsBool(r) && a <= 1 && Lookup(s.regs, lv) == Some(Val(1, a))
    requires a == FromBool(!isAnd) || Exact(turbo, world, r, s.trace)
    ensures var y := EmitI1(turbo, OpenShortCircuit(f, lv, isAnd), r);
            var h := CloseShortCircuit(y.f, y.v, |f.code| + 1, |f.code| + 2, isAnd);
            var b := Eval(turbo, world, r, s.trace);
            var decided := a == FromBool(!isAnd);
            && Emits(world, f, h.f, s, t)
            && t.trace == (if decided then s.trace else b.trace)
            && Lookup(t.regs, h.v) == Some(Val(1, if decided then a else b.v))
    decreases r, 5
  {
    hide Grows, OpenShortCircuit, CloseShortCircuit, EmitI1;
    var g := OpenShortCircuit(f, lv, isAnd);
    OpenShape(f, lv, isAnd);
    I1Grows(turbo, g, r);
    var rv := EmitI1(turbo, g, r);
    if a == FromBool(!isAnd) {
      t := ShortCircuitSkips(world, f, lv, rv.f, rv.v, isAnd, s);
    } else {
      var s2 := ShortCircuitEnters(world, f, lv, isAnd, s);
      var s3 := I1Correct(turbo, world, g, r, s2);
      ReachesExtends(world, g.code, rv.f.code, s, s2);
      ReachesTrans(world, rv.f.code, s, s2, s3);
      var b := Eval(turbo, world, r, s.trace);
      t := ShortCircuitJoins(world, f, lv, rv.f, rv.v, isAnd, s, s3, Val(1, b.v));
    }
  }

  lemma {:induction false} BoolBits(a: nat, b: nat)
    requires a <= 1 && b <= 1
    ensures BitAnd(1, a, b) == FromBool(a == 1 && b == 1) && BitOr(1, a, b) == FromBool(a == 1 || b == 1)
  {
    assert BitAnd(0, 0, 0) == BitOr(0, 0, 0) == 0;
  }

  lemma {:induction false} FullCorrect(turbo: bool, world: World, f: Fn, lv: Value, isAnd: bool, r: Expr, s: State, a: nat)
    returns (t: State)
    requires f.Open() && At(f, s) && IsBool(r) && Exact(turbo, world, r, s.trace) && a <= 1 && Lookup(s.regs, lv) == Some(Val(1, a))
    ensures var y := EmitI1(turbo, f, r);
            var h := EmitLogic(y.f, isAnd, lv, y.v);
            var b := Eval(turbo, world, r, s.trace);
            && Emits(world, f, h.f, s, t) && t.trace == b.trace
            && Lookup(t.regs, h.v) == Some(Val(1, FromBool(if isAnd then a == 1 && b.v == 1 else a == 1 || b.v == 1)))
    decreases r, 5
  {
    hide EmitI1, Emits, At, Extends, Reaches, Keeps, BitAnd, BitOr;
    var rv := EmitI1(turbo, f, r);
    var s2 := I1Correct(turbo, world, f, r, s);
    EmitsEnds(world, f, rv.f, s, s2);
    LookupKeeps(s, s2, lv);
    var i := Bin(rv.f.next, if isAnd then BinOp.And else BinOp.Or, lv, rv.v);
    BoolBits(a, Eval(turbo, world, r, s.trace).v);
    t := Exec(world, s2, i).value;
    EmitsSnoc(world, f, rv.f, i, s, s2, t);
  }
}
