/** What the emitted operators answer, told operator by operator. */
module LoweringMeaning {
  import opened Bits
  import opened Ir
  import opened Lowering
  import opened LoweringCompare
  import opened LoweringCorrect

  /** Running a connective's code answers `and` for the two and-operators and `or` for
    * the two or-operators. The right operand is left out exactly when and_then has a
    * false left operand, or_else a true one, and under Turbo without full evaluation
    * also for `and` and `or`. */
  lemma {:induction false} ConnectiveMeans(turbo: bool, world: World, f: Fn, op: LogicOp, full: bool, l: Expr, r: Expr, s: State)
    returns (t: State)
    requires f.Open() && At(f, s) && IsBool(l) && IsBool(r) && Exact(turbo, world, Logic(op, full, l, r), s.trace)
    ensures var m := EmitExpr(turbo, f, Logic(op, full, l, r));
            var a := Eval(turbo, world, l, s.trace);
            var b := Eval(turbo, world, r, a.trace);
            && Emits(world, f, m.f, s, t)
            && (op == AndOp || op == AndThen ==>
                  Lookup(t.regs, m.v) == Some(Val(1, if a.v == 1 && b.v == 1 then 1 else 0)))
            && (op == OrOp || op == OrElse ==>
                  Lookup(t.regs, m.v) == Some(Val(1, if a.v == 1 || b.v == 1 then 1 else 0)))
            && t.trace == if (op == AndThen && a.v == 0) || (op == OrElse && a.v == 1)
                             || (turbo && !full && ((op == AndOp && a.v == 0) || (op == OrOp && a.v == 1)))
                          then a.trace else b.trace
  {
    hide Emits, At, Eval, EmitExpr, EmitI1, Exact;
    LogicUnfolds(turbo, world, f, op, full, l, r, s.trace);
    var x;
    t, x := LogicCorrect(turbo, world, f, op, full, l, r, s);
    BoolEval(turbo, world, l, s.trace);
    BoolEval(turbo, world, r, Eval(turbo, world, l, s.trace).trace);
    OneBit(Logic(op, full, l, r), x, Eval(turbo, world, Logic(op, full, l, r), s.trace).v);
  }

  lemma BoolEval(turbo: bool, world: World, e: Expr, trace: seq<nat>)
    requires IsBool(e)
    ensures Eval(turbo, world, e, trace).v in {0, 1}
  {
  }

  lemma {:induction false} OneBit(e: Expr, x: Val, v: int)
    requires e.Logic? && IsBool(e) && Represents(e, x, v)
    ensures x == Val(1, if v == 1 then 1 else 0)
  {
    Pow2One();
  }

  /** A comparison that keeps its values' order answers what its sign says. */
  lemma {:induction false} ComparisonMeans(l: Expr, r: Expr, a: int, b: int)
    requires IsInt(l) && IsInt(r) && UnifyOperands(l, r).w >= 1 && OrderKept(UnifyOperands(l, r), a, b)
    ensures EmittedRelation(l, r, Equal, a, b) <==> a == b
    ensures EmittedRelation(l, r, NotEqual, a, b) <==> a != b
    ensures EmittedRelation(l, r, LessThan, a, b) <==> a < b
    ensures EmittedRelation(l, r, LessThanOrEqual, a, b) <==> a <= b
    ensures EmittedRelation(l, r, GreaterThan, a, b) <==> a > b
    ensures EmittedRelation(l, r, GreaterThanOrEqual, a, b) <==> a >= b
  {
    hide UnifyOperands, OrderKept, EmittedRelation;
    ComparisonRight(l, r, a, b);
  }

  /** The one 64-bit instruction leaves the sum, the difference or the product, left
    * operand first, modulo 2^64. */
  lemma {:induction false} ArithMeans(world: World, f: Fn, s: State, op: ArithOp, l: Expr, lv: Value, x: Val, a: int,
                                      r: Expr, rv: Value, y: Val, b: int) returns (t: State)
    requires f.Open() && At(f, s) && IsInt(l) && IsInt(r)
    requires Lookup(s.regs, lv) == Some(x) && Represents(l, x, a)
    requires Lookup(s.regs, rv) == Some(y) && Represents(r, y, b)
    ensures var m := EmitArith(f, op, lv, OperandIsSigned(l), rv, OperandIsSigned(r));
            && Emits(world, f, m.f, s, t) && t.trace == s.trace
            && Lookup(t.regs, m.v)
               == Some(Val(64, (match op case Plus => a + b case Minus => a - b case Times => a * b) % 0x1_0000_0000_0000_0000))
  {
    Pow2Of64();
    hide Emits, At, EmitArith, Represents, Lookup, Pow2;
    t := ArithCorrect(world, f, s, op, l, lv, x, a, r, rv, y, b);
  }

  lemma Pow2Of64()
    ensures Pow2(64) == 0x1_0000_0000_0000_0000
  {
    assert Pow2(8) == 256;
    Pow2Add(8, 8);
    Pow2Add(16, 16);
    Pow2Add(32, 32);
  }
}
