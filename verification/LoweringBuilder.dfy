/** The emitter in the form the compiler has it: an IR builder whose insertion
  * point and blocks are changed step by step. */
module LoweringBuilder {
  import opened Ir
  import opened Lowering

  class IRBuilder {
    var code: seq<Block>
    var cur: nat
    var next: nat

    function Built(): Fn
      reads this
    {
      Fn(code, cur, next)
    }

    constructor ()
      ensures Built() == Fn([Block([], Unterminated)], 0, 0) && Built().Open()
    {
      code, cur, next := [Block([], Unterminated)], 0, 0;
    }

    method CreateBlock() returns (bb: nat)
      modifies this
      ensures bb == old(|code|) && Built() == NewBlock(old(Built()))
    {
      bb := |code|;
      code := code + [Block([], Unterminated)];
    }

    method SetInsertPoint(bb: nat)
      modifies `cur
      ensures cur == bb
    {
      cur := bb;
    }

    method CreateTerm(t: Term)
      requires Built().Valid()
      modifies `code
      ensures Built() == Terminate(old(Built()), t)
    {
      code := code[cur := code[cur].(term := t)];
    }

    method Insert(i: Inst)
      requires Built().Valid()
      modifies this
      ensures Built() == Append(old(Built()), i)
    {
      code, next := code[cur := code[cur].(insts := code[cur].insts + [i])], next + 1;
    }

    method AddPhiIncoming(v: Value, from: nat)
      requires Built().Valid() && Built().End() > 0 && code[cur].insts[Built().End() - 1].Phi?
      modifies `code
      ensures Built() == AddIncoming(old(Built()), v, from)
    {
      var last := |code[cur].insts| - 1;
      var phi := code[cur].insts[last];
      code := code[cur := code[cur].(insts := code[cur].insts[last := phi.(incoming := phi.incoming + [(from, v)])])];
    }

    method CoerceToType(v: Value, w: nat, srcSigned: bool) returns (r: Value)
      requires Built().Valid()
      modifies this
      ensures Emitted(Built(), r) == CoerceTo(old(Built()), v, w, srcSigned)
    {
      if v.w == w {
        return v;
      }
      r := Reg(next, w);
      if v.w > w {
        Insert(Trunc(next, w, v));
      } else if srcSigned {
        Insert(SExt(next, w, v));
      } else {
        Insert(ZExt(next, w, v));
      }
    }

    method WidenToI64(v: Value, srcSigned: bool) returns (r: Value)
      requires Built().Valid()
      modifies this
      ensures Emitted(Built(), r) == ToI64(old(Built()), v, srcSigned)
    {
      if v.w == 64 {
        return v;
      }
      r := Reg(next, 64);
      if srcSigned {
        Insert(SExt(next, 64, v));
      } else {
        Insert(ZExt(next, 64, v));
      }
    }

    method ToBool(v: Value) returns (r: Value)
      requires Built().Valid()
      modifies this
      ensures Emitted(Built(), r) == EnsureI1(old(Built()), v)
    {
      if v.w == 1 {
        return v;
      }
      r := Reg(next, 1);
      Insert(ICmp(next, NE, v, Imm(v.w, 0)));
    }

    /** The promotion table, as the emitter works it out. */
    static method PromotedType(l: Expr, r: Expr, lv: Value, rv: Value) returns (targetWidth: nat, targetSigned: bool)
      requires lv.w == EmittedWidth(l) && rv.w == EmittedWidth(r)
      ensures Target(targetWidth, targetSigned) == UnifyOperands(l, r)
    {
      var lw, rw := lv.w, rv.w;
      if l.IntLit? && !r.IntLit? {
        if LiteralFitsWidth(StoredLiteral(l.v), rw, !OperandIsSigned(r)) {
          lw := rw;
        }
      } else if r.IntLit? && !l.IntLit? {
        if LiteralFitsWidth(StoredLiteral(r.v), lw, !OperandIsSigned(l)) {
          rw := lw;
        }
      }
      var lSigned, rSigned := OperandIsSigned(l), OperandIsSigned(r);
      if lSigned == rSigned {
        targetWidth, targetSigned := if lw >= rw then lw else rw, lSigned;
      } else {
        var uw := if lSigned then rw else lw;
        var sw := if lSigned then lw else rw;
        if sw > uw {
          targetWidth, targetSigned := sw, true;
        } else {
          var promoted := uw * 2;
          if promoted <= 64 {
            targetWidth, targetSigned := promoted, true;
          } else {
            targetWidth, targetSigned := uw, sw == uw;
          }
        }
      }
    }

    method EmitShortCircuit(turbo: bool, e: Expr, isAnd: bool) returns (r: Value)
      requires Built().Valid() && e.Logic?
      modifies this
      ensures Built().Valid() && r.w == 1
      ensures Emitted(Built(), r) ==
              var x := EmitI1(turbo, old(Built()), e.left);
              var y := EmitI1(turbo, OpenShortCircuit(x.f, x.v, isAnd), e.right);
              CloseShortCircuit(y.f, y.v, |x.f.code| + 1, |x.f.code| + 2, isAnd)
      decreases e, 0
    {
      hide CloseShortCircuit, EmitI1, EmitExpr;
      var lv := EmitBool(turbo, e.left);
      ghost var x := Built();
      var rhsBB := CreateBlock();
      var endBB := CreateBlock();
      var shortBB := CreateBlock();
      CreateTerm(CondBr(lv, if isAnd then rhsBB else shortBB, if isAnd then shortBB else rhsBB));
      SetInsertPoint(rhsBB);
      assert Built() == OpenShortCircuit(x, lv, isAnd);
      var rv := EmitBool(turbo, e.right);
      r := Join(rv, endBB, shortBB, isAnd);
    }

    /** The tail of a short circuit, after the right operand. */
    method Join(rv: Value, endBB: nat, shortBB: nat, isAnd: bool) returns (r: Value)
      requires Built().Valid() && endBB < |code| && shortBB < |code|
      modifies this
      ensures Emitted(Built(), r) == CloseShortCircuit(old(Built()), rv, endBB, shortBB, isAnd)
    {
      CreateTerm(Br(endBB));
      var fromRhs := cur;
      SetInsertPoint(shortBB);
      CreateTerm(Br(endBB));
      SetInsertPoint(endBB);
      r := Reg(next, 1);
      Insert(Phi(next, []));
      AddPhiIncoming(Imm(1, FromBool(!isAnd)), shortBB);
      AddPhiIncoming(rv, fromRhs);
    }

    method EmitBool(turbo: bool, e: Expr) returns (r: Value)
      requires Built().Valid()
      modifies this
      ensures Built().Valid() && r.w == 1
      ensures Emitted(Built(), r) == EmitI1(turbo, old(Built()), e)
      decreases e, 2
    {
      r := Emit(turbo, e);
      r := ToBool(r);
    }

    method Emit(turbo: bool, e: Expr) returns (r: Value)
      requires Built().Valid()
      modifies this
      ensures Built().Valid() && r.w == EmittedWidth(e)
      ensures Emitted(Built(), r) == EmitExpr(turbo, old(Built()), e)
      decreases e, 1
    {
      hide CloseShortCircuit, OpenShortCircuit, EmitI1, EmitArith, EmitRelation, UnifyOperands;
      match e
      case IntLit(v) =>
        r := Imm(64, v);
      case Operand(id, w, _) =>
        r := Reg(next, w);
        Insert(Ir.Operand(next, w, id));
      case BoolOperand(id, w) =>
        r := Reg(next, w);
        Insert(Ir.Operand(next, w, id));
      case Arith(op, _, left, right) =>
        var lv := Emit(turbo, left);
        var rv := Emit(turbo, right);
        r := Arithmetic(op, lv, OperandIsSigned(left), rv, OperandIsSigned(right));
      case Relation(op, left, right) =>
        var lv := Emit(turbo, left);
        var rv := Emit(turbo, right);
        r := Comparison(op, left, right, lv, rv);
      case Not(operand) =>
        var v := EmitBool(turbo, operand);
        r := Reg(next, 1);
        Insert(Ir.Not(next, v));
      case Logic(op, fullEval, left, right) =>
        if ShortCircuits(turbo, op, fullEval) {
          r := EmitShortCircuit(turbo, e, IsAnd(op));
        } else {
          var lv := EmitBool(turbo, left);
          var rv := EmitBool(turbo, right);
          r := Reg(next, 1);
          Insert(Bin(next, if IsAnd(op) then BinOp.And else BinOp.Or, lv, rv));
        }
    }

    method Arithmetic(op: ArithOp, lvRaw: Value, lSigned: bool, rvRaw: Value, rSigned: bool) returns (r: Value)
      requires Built().Valid()
      modifies this
      ensures Emitted(Built(), r) == EmitArith(old(Built()), op, lvRaw, lSigned, rvRaw, rSigned)
    {
      var lv := WidenToI64(lvRaw, lSigned);
      var rv := WidenToI64(rvRaw, rSigned);
      r := Reg(next, 64);
      Insert(Bin(next, ArithInst(op), lv, rv));
    }

    method Comparison(op: RelOp, left: Expr, right: Expr, l: Value, r0: Value) returns (r: Value)
      requires Built().Valid() && l.w == EmittedWidth(left) && r0.w == EmittedWidth(right)
      modifies this
      ensures Emitted(Built(), r) == EmitRelation(old(Built()), op, UnifyOperands(left, right),
                                       l, OperandIsSigned(left), r0, OperandIsSigned(right))
    {
      var targetWidth, targetSigned := PromotedType(left, right, l, r0);
      var lv := CoerceToType(l, targetWidth, OperandIsSigned(left));
      var rv := CoerceToType(r0, targetWidth, OperandIsSigned(right));
      r := Reg(next, 1);
      Insert(ICmp(next, RelPred(op, targetSigned), lv, rv));
    }

    /** The value conversion of an assignment to a `w`-bit ordinal variable. */
    method ConvertForStore(turbo: bool, value: Expr, w: nat) returns (rhs: Value)
      requires Built().Valid()
      modifies this
      ensures Emitted(Built(), rhs) == EmitStoreValue(turbo, old(Built()), value, w)
    {
      rhs := Emit(turbo, value);
      if rhs.w != w {
        rhs := CoerceToType(rhs, w, OperandIsSigned(value));
      }
    }
  }
}
