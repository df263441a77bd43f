/** Control-flow facts of the emitted blocks that do not depend on a run: every
  * phi has exactly one entry for each block that branches to it. */
module LoweringBlocks {
  import opened Ir
  import opened Lowering
  import opened LoweringCorrect

  predicate Targets(t: Term, i: int) {
    (t.Br? && t.target == i) || (t.CondBr? && (t.ifTrue == i || t.ifFalse == i))
  }

  predicate HasEdge(code: seq<Block>, j: int, i: int) {
    0 <= j < |code| && Targets(code[j].term, i)
  }

  /** One entry per predecessor, and no others. */
  ghost predicate NamesPredecessors(inc: seq<(nat, Value)>, code: seq<Block>, i: int) {
    && (forall k | 0 <= k < |inc| :: HasEdge(code, inc[k].0, i))
    && (forall j | HasEdge(code, j, i) :: exists k :: 0 <= k < |inc| && inc[k].0 == j)
    && (forall k, m | 0 <= k < m < |inc| :: inc[k].0 != inc[m].0)
  }

  ghost predicate PhisExact(code: seq<Block>) {
    forall i, k | 0 <= i < |code| && 0 <= k < |code[i].insts| && code[i].insts[k].Phi? ::
      NamesPredecessors(code[i].insts[k].incoming, code, i)
  }

  ghost predicate WellFormed(code: seq<Block>) {
    && (forall j, i | HasEdge(code, j, i) :: i < |code|)
    && PhisExact(code)
  }

  /** Emission adds no edge into a block that was already there. */
  ghost predicate SameEdges(f: Fn, g: Fn) {
    forall i, j | 0 <= i < |f.code| :: HasEdge(g.code, j, i) <==> HasEdge(f.code, j, i)
  }

  ghost predicate NoEdges(code: seq<Block>, i: int) {
    forall j :: !HasEdge(code, j, i)
  }

  lemma {:induction false} PhiCarries(c: seq<Block>, d: seq<Block>, inc: seq<(nat, Value)>, i: int)
    requires NamesPredecessors(inc, c, i) && forall j :: HasEdge(c, j, i) <==> HasEdge(d, j, i)
    ensures NamesPredecessors(inc, d, i)
  {
  }

  lemma {:induction false} AppendWellFormed(f: Fn, inst: Inst)
    requires f.Open() && WellFormed(f.code) && !inst.Phi?
    ensures WellFormed(Append(f, inst).code) && SameEdges(f, Append(f, inst))
  {
    var g := Append(f, inst);
    assert forall i, j :: HasEdge(g.code, j, i) <==> HasEdge(f.code, j, i);
    forall i, k | 0 <= i < |g.code| && 0 <= k < |g.code[i].insts| && g.code[i].insts[k].Phi?
      ensures NamesPredecessors(g.code[i].insts[k].incoming, g.code, i)
    {
      assert g.code[i].insts[k] == f.code[i].insts[k];
      PhiCarries(f.code, g.code, f.code[i].insts[k].incoming, i);
    }
  }

  lemma {:induction false} OpenWellFormed(x: Fn, lv: Value, isAnd: bool)
    requires x.Open() && WellFormed(x.code)
    ensures var g := OpenShortCircuit(x, lv, isAnd);
            WellFormed(g.code) && SameEdges(x, g)
    ensures NoEdges(OpenShortCircuit(x, lv, isAnd).code, |x.code| + 1)
  {
    hide OpenShortCircuit, PhisExact;
    OpenShape(x, lv, isAnd);
    var g := OpenShortCircuit(x, lv, isAnd);
    forall i, j
      ensures HasEdge(g.code, j, i) <==> HasEdge(x.code, j, i) || (j == x.cur && (i == |x.code| || i == |x.code| + 2))
    {
      if 0 <= j < |x.code| && j != x.cur {
        assert g.code[j] == x.code[j];
      } else if |x.code| <= j < |g.code| {
        assert g.code[j] == EMPTY;
      }
    }
    OpenPhis(x, g);
  }

  lemma {:induction false} OpenPhis(x: Fn, g: Fn)
    requires |x.code| <= |g.code| && SameEdges(x, g) && PhisExact(x.code)
    requires forall i | 0 <= i < |x.code| :: g.code[i].insts == x.code[i].insts
    requires forall i | |x.code| <= i < |g.code| :: g.code[i] == EMPTY
    ensures PhisExact(g.code)
  {
    forall i, k | 0 <= i < |g.code| && 0 <= k < |g.code[i].insts| && g.code[i].insts[k].Phi?
      ensures NamesPredecessors(g.code[i].insts[k].incoming, g.code, i)
    {
      assert g.code[i].insts[k] == x.code[i].insts[k];
      PhiCarries(x.code, g.code, x.code[i].insts[k].incoming, i);
    }
  }

  lemma {:induction false} CloseWellFormed(y: Fn, rv: Value, endBB: nat, shortBB: nat, isAnd: bool)
    requires y.Open() && endBB < |y.code| && shortBB < |y.code|
    requires y.cur != endBB && y.cur != shortBB && endBB != shortBB
    requires y.code[endBB] == EMPTY && y.code[shortBB] == EMPTY
    requires WellFormed(y.code) && NoEdges(y.code, endBB)
    ensures var h := CloseShortCircuit(y, rv, endBB, shortBB, isAnd).f;
            && WellFormed(h.code)
            && forall i, j | 0 <= i < |y.code| && i != endBB :: HasEdge(h.code, j, i) <==> HasEdge(y.code, j, i)
  {
    hide CloseShortCircuit;
    CloseShape(y, rv, endBB, shortBB, isAnd);
    var h := CloseShortCircuit(y, rv, endBB, shortBB, isAnd).f;
    var phi := JoinPhi(y, rv, shortBB, isAnd);
    forall i, j
      ensures HasEdge(h.code, j, i) <==> HasEdge(y.code, j, i) || (i == endBB && (j == shortBB || j == y.cur))
    {
      if 0 <= j < |y.code| && j != y.cur && j != shortBB && j != endBB {
        assert h.code[j] == y.code[j];
      }
    }
    assert phi.incoming[0].0 == shortBB && phi.incoming[1].0 == y.cur;
    assert NamesPredecessors(phi.incoming, h.code, endBB);
    forall i, k | 0 <= i < |h.code| && 0 <= k < |h.code[i].insts| && h.code[i].insts[k].Phi?
      ensures NamesPredecessors(h.code[i].insts[k].incoming, h.code, i)
    {
      if i != endBB {
        assert h.code[i].insts[k] == y.code[i].insts[k];
        PhiCarries(y.code, h.code, y.code[i].insts[k].incoming, i);
      }
    }
  }

  /** Every phi of the emitted function names exactly the blocks control can come from. */
  lemma {:induction false} EmitPhis(turbo: bool, f: Fn, e: Expr)
    requires f.Open() && WellFormed(f.code)
    ensures var g := EmitExpr(turbo, f, e).f;
            WellFormed(g.code) && SameEdges(f, g)
    decreases e, 1
  {
    hide Grows, WellFormed, SameEdges, OpenShortCircuit, CloseShortCircuit, EmitI1;
    match e
    case IntLit(_) => SameEdgesRefl(f);
    case Operand(id, w, _) => AppendWellFormed(f, Ir.Operand(f.next, w, id));
    case BoolOperand(id, w) => AppendWellFormed(f, Ir.Operand(f.next, w, id));
    case Arith(op, _, l, r) =>
      var x, y := PairPhis(turbo, f, e, l, r);
      var a := ToI64(y.f, x.v, OperandIsSigned(l));
      ToI64Phis(f, y.f, x.v, OperandIsSigned(l));
      var b := ToI64(a.f, y.v, OperandIsSigned(r));
      ToI64Phis(f, a.f, y.v, OperandIsSigned(r));
      SnocPhis(f, b.f, Bin(b.f.next, ArithInst(op), a.v, b.v));
    case Relation(op, l, r) =>
      var x, y := PairPhis(turbo, f, e, l, r);
      var t := UnifyOperands(l, r);
      var a := CoerceTo(y.f, x.v, t.w, OperandIsSigned(l));
      CoercePhis(f, y.f, x.v, t.w, OperandIsSigned(l));
      var b := CoerceTo(a.f, y.v, t.w, OperandIsSigned(r));
      CoercePhis(f, a.f, y.v, t.w, OperandIsSigned(r));
      SnocPhis(f, b.f, ICmp(b.f.next, RelPred(op, t.signed), a.v, b.v));
    case Not(b) =>
      I1Phis(turbo, f, b);
      var x := EmitI1(turbo, f, b);
      SnocPhis(f, x.f, Ir.Not(x.f.next, x.v));
    case Logic(op, full, l, r) =>
      I1Phis(turbo, f, l);
      var x := EmitI1(turbo, f, l);
      if ShortCircuits(turbo, op, full) {
        ShortCircuitPhis(turbo, x.f, x.v, IsAnd(op), r);
        SameEdgesTrans(f, x.f, EmitExpr(turbo, f, e).f);
      } else {
        I1Phis(turbo, x.f, r);
        var y := EmitI1(turbo, x.f, r);
        SameEdgesTrans(f, x.f, y.f);
        SnocPhis(f, y.f, Bin(y.f.next, if IsAnd(op) then BinOp.And else BinOp.Or, x.v, y.v));
      }
  }

  lemma {:induction false} SameEdgesRefl(f: Fn)
    ensures SameEdges(f, f)
  {
  }

  lemma {:induction false} SameEdgesTrans(f: Fn, g: Fn, h: Fn)
    requires SameEdges(f, g) && SameEdges(g, h) && |f.code| <= |g.code|
    ensures SameEdges(f, h)
  {
  }

  lemma {:induction false} SnocPhis(f: Fn, g: Fn, inst: Inst)
    requires g.Open() && WellFormed(g.code) && SameEdges(f, g) && |f.code| <= |g.code| && !inst.Phi?
    ensures WellFormed(Append(g, inst).code) && SameEdges(f, Append(g, inst)) && Append(g, inst).Open()
  {
    AppendWellFormed(g, inst);
  }

  lemma {:induction false} ToI64Phis(f: Fn, g: Fn, v: Value, signed: bool)
    requires g.Open() && WellFormed(g.code) && SameEdges(f, g) && |f.code| <= |g.code|
    ensures var h := ToI64(g, v, signed).f;
            WellFormed(h.code) && SameEdges(f, h) && h.Open()
  {
    if v.w != 64 {
      SnocPhis(f, g, if signed then SExt(g.next, 64, v) else ZExt(g.next, 64, v));
    }
  }

  lemma {:induction false} CoercePhis(f: Fn, g: Fn, v: Value, w: nat, signed: bool)
    requires g.Open() && WellFormed(g.code) && SameEdges(f, g) && |f.code| <= |g.code|
    ensures var h := CoerceTo(g, v, w, signed).f;
            WellFormed(h.code) && SameEdges(f, h) && h.Open()
  {
    if v.w != w {
      SnocPhis(f, g, if v.w > w then Trunc(g.next, w, v) else if signed then SExt(g.next, w, v) else ZExt(g.next, w, v));
    }
  }

  lemma {:induction false} PairPhis(turbo: bool, f: Fn, e: Expr, l: Expr, r: Expr) returns (x: Emitted, y: Emitted)
    requires f.Open() && WellFormed(f.code) && (e.Arith? || e.Relation?) && l == e.left && r == e.right
    ensures x == EmitExpr(turbo, f, l) && y == EmitExpr(turbo, x.f, r)
    ensures y.f.Open() && WellFormed(y.f.code) && SameEdges(f, y.f)
    decreases e, 0
  {
    hide Grows, WellFormed, SameEdges;
    x := EmitExpr(turbo, f, l);
    EmitGrows(turbo, f, l);
    GrowsExtends(f, x.f);
    EmitPhis(turbo, f, l);
    y := EmitExpr(turbo, x.f, r);
    EmitGrows(turbo, x.f, r);
    GrowsExtends(x.f, y.f);
    EmitPhis(turbo, x.f, r);
    SameEdgesTrans(f, x.f, y.f);
  }

  lemma {:induction false} I1Phis(turbo: bool, f: Fn, e: Expr)
    requires f.Open() && WellFormed(f.code)
    ensures var g := EmitI1(turbo, f, e).f;
            g.Open() && WellFormed(g.code) && SameEdges(f, g)
    decreases e, 2
  {
    hide Grows, WellFormed, SameEdges;
    var x := EmitExpr(turbo, f, e);
    EmitGrows(turbo, f, e);
    GrowsExtends(f, x.f);
    EmitPhis(turbo, f, e);
    SnocPhis(f, x.f, ICmp(x.f.next, NE, x.v, Imm(x.v.w, 0)));
  }

  lemma {:induction false} ShortCircuitPhis(turbo: bool, f: Fn, lv: Value, isAnd: bool, r: Expr)
    requires f.Open() && WellFormed(f.code)
    ensures var y := EmitI1(turbo, OpenShortCircuit(f, lv, isAnd), r);
            var h := CloseShortCircuit(y.f, y.v, |f.code| + 1, |f.code| + 2, isAnd).f;
            WellFormed(h.code) && SameEdges(f, h)
    decreases r, 3
  {
    hide Grows, WellFormed, OpenShortCircuit, CloseShortCircuit, EmitI1;
    var g := OpenShortCircuit(f, lv, isAnd);
    OpenShape(f, lv, isAnd);
    OpenWellFormed(f, lv, isAnd);
    var y := EmitI1(turbo, g, r);
    I1Grows(turbo, g, r);
    I1Phis(turbo, g, r);
    ShortCircuitGrows(f, lv, y.f, y.v, isAnd);
    CloseWellFormed(y.f, y.v, |f.code| + 1, |f.code| + 2, isAnd);
  }
}
