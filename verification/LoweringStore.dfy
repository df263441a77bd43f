/** Assignment: the stored bits are the mathematical value modulo the width of
  * the destination, whatever the leaves are. */
module LoweringStore {
  import opened Bits
  import opened Ir
  import opened Lowering
  import opened LoweringCorrect

  /** Arithmetic runs at 64 bits whatever the operand widths, and only the
    * store narrows: both are exact modulo the width. */
  lemma {:induction false} StoreCorrect(turbo: bool, world: World, f: Fn, e: Expr, w: nat, s: State) returns (t: State)
    requires f.Open() && At(f, s) && IsInt(e) && 1 <= w <= 64
    ensures var r := EmitStoreValue(turbo, f, e, w);
            var v := Eval(turbo, world, e, s.trace);
            && Emits(world, f, r.f, s, t) && t.trace == v.trace
            && Lookup(t.regs, r.v) == Some(Val(w, Wrap(w, v.v)))
  {
    var x := EmitExpr(turbo, f, e);
    var v := Eval(turbo, world, e, s.trace).v;
    var s1, b := EmitCorrect(turbo, world, f, e, s);
    RepresentsInterpreted(e, b, v);
    t := CoerceCorrect(world, x.f, s1, x.v, w, OperandIsSigned(e), b);
    EmitsTrans(world, f, x.f, CoerceTo(x.f, x.v, w, OperandIsSigned(e)).f, s, s1, t);
    if !IsSimple(e) {
      WrapWrap(64, w, Interpret(OperandIsSigned(e), b.w, b.bits));
      WrapWrap(64, w, v);
    }
  }

  /** The tree with every operand replaced by a literal of the value it had, and typed
    * anew. */
  function WithLiterals(turbo: bool, world: World, e: Expr, trace: seq<nat>): Expr
    requires IsInt(e)
  {
    match e
    case Operand(_, _, _) => IntLit(Eval(false, world, e, trace).v)
    case IntLit(_) => e
    case Arith(op, _, l, r) =>
      var m := WithLiterals(turbo, world, l, trace);
      var n := WithLiterals(turbo, world, r, Eval(false, world, l, trace).trace);
      Arith(op, CommonType(ResolvedType(turbo, m), ResolvedType(turbo, n)), m, n)
  }

  /** Whatever an operand holds can be written as a literal. */
  lemma WidestValue(signed: bool, w: nat, v: int)
    requires 1 <= w <= 64 && InRange(signed, w, v)
    ensures IsSimple(IntLit(v))
  {
    Pow2Monotone(w, 64);
    Pow2Monotone(w - 1, 63);
  }

  lemma {:induction false} WithLiteralsValue(turbo: bool, world: World, e: Expr, trace: seq<nat>, trace': seq<nat>)
    requires IsInt(e)
    ensures var m := WithLiterals(turbo, world, e, trace);
            IsInt(m) && Eval(turbo, world, m, trace').v == Eval(turbo, world, e, trace).v
    ensures Eval(turbo, world, e, trace) == Eval(false, world, e, trace)
    decreases e
  {
    match e
    case Operand(id, w, signed) =>
      WrapInterpret(signed, w, Wrap(w, world.operand(id, trace)));
      WidestValue(signed, w, Eval(false, world, e, trace).v);
    case IntLit(_) =>
    case Arith(_, _, l, r) =>
      WithLiteralsValue(turbo, world, l, trace, trace');
      var m := WithLiterals(turbo, world, l, trace);
      WithLiteralsValue(turbo, world, r, Eval(false, world, l, trace).trace, Eval(turbo, world, m, trace').trace);
  }

  /** Variables or literals at the leaves: the same bits end up stored. */
  lemma {:induction false} LeavesNeverDiffer(turbo: bool, world: World, f: Fn, e: Expr, w: nat, s: State) returns (t: State, u: State)
    requires f.Open() && At(f, s) && IsInt(e) && 1 <= w <= 64
    ensures var m := WithLiterals(turbo, world, e, s.trace);
            var (a, b) := (EmitStoreValue(turbo, f, e, w), EmitStoreValue(turbo, f, m, w));
            && Emits(world, f, a.f, s, t) && Emits(world, f, b.f, s, u)
            && Lookup(t.regs, a.v).Some? && Lookup(t.regs, a.v) == Lookup(u.regs, b.v)
  {
    WithLiteralsValue(turbo, world, e, s.trace, s.trace);
    t := StoreCorrect(turbo, world, f, e, w, s);
    u := StoreCorrect(turbo, world, f, WithLiterals(turbo, world, e, s.trace), w, s);
  }
}
