/** Lowering of Pascal expressions to basic blocks, and of an assignment's
  * width conversion: what `CGBinaryOps` and `CGAssign` emit. */
module Lowering {
  import opened Bits
  import opened Ir

  datatype ArithOp = Plus | Minus | Times
  datatype RelOp = Equal | NotEqual | LessThan | LessThanOrEqual | GreaterThan | GreaterThanOrEqual
  datatype LogicOp = AndOp | OrOp | AndThen | OrElse

  /** The width and signedness of an integer type. */
  datatype Target = Target(w: nat, signed: bool)

  /** An operand is a variable access or a call: anything with a value of a
    * declared width whose evaluation can be observed. Arithmetic carries the type
    * Sema resolved for it. `fullEval` is the position's `{$B+}` switch. */
  datatype Expr =
    | Operand(id: nat, w: nat, signed: bool)
    | IntLit(v: int)
    | Arith(aop: ArithOp, ty: Target, left: Expr, right: Expr)
    | BoolOperand(id: nat, w: nat)
    | Relation(rop: RelOp, left: Expr, right: Expr)
    | Not(operand: Expr)
    | Logic(lop: LogicOp, fullEval: bool, left: Expr, right: Expr)

  // ---- which trees Sema lets through ----

  predicate IsSimple(e: Expr) {
    match e
    case Operand(_, w, _) => 1 <= w <= 64
    case IntLit(v) => InRange(true, 64, v) || InRange(false, 64, v)
    case _ => false
  }

  predicate IsInt(e: Expr) {
    IsSimple(e) || (e.Arith? && IsInt(e.left) && IsInt(e.right))
  }

  predicate IsBool(e: Expr) {
    match e
    case BoolOperand(_, w) => 1 <= w <= 64
    case Relation(_, l, r) => IsInt(l) && IsInt(r)
    case Not(x) => IsBool(x)
    case Logic(_, _, l, r) => IsBool(l) && IsBool(r)
    case _ => false
  }

  // ---- source meaning ----

  datatype Outcome = Outcome(v: int, trace: seq<nat>)

  /** Whether an operator may leave its right operand unevaluated. */
  predicate ShortCircuits(turbo: bool, op: LogicOp, fullEval: bool) {
    op == AndThen || op == OrElse || (turbo && !fullEval)
  }

  predicate IsAnd(op: LogicOp) { op == AndOp || op == AndThen }

  function ArithValue(op: ArithOp, a: int, b: int): int {
    match op
    case Plus => a + b
    case Minus => a - b
    case Times => a * b
  }

  predicate Relates(op: RelOp, a: int, b: int) {
    match op
    case Equal => a == b
    case NotEqual => a != b
    case LessThan => a < b
    case LessThanOrEqual => a <= b
    case GreaterThan => a > b
    case GreaterThanOrEqual => a >= b
  }

  /** The mathematical value of an expression (a Boolean is 0 or 1) and the
    * operands evaluated on the way, in order. */
  function Eval(turbo: bool, world: World, e: Expr, trace: seq<nat>): (o: Outcome)
    requires IsInt(e) || IsBool(e)
    ensures IsBool(e) ==> o.v == 0 || o.v == 1
  {
    match e
    case Operand(id, w, signed) =>
      Outcome(Interpret(signed, w, Wrap(w, world.operand(id, trace))), trace + [id])
    case IntLit(v) => Outcome(v, trace)
    case Arith(op, _, l, r) =>
      var x := Eval(turbo, world, l, trace);
      var y := Eval(turbo, world, r, x.trace);
      Outcome(ArithValue(op, x.v, y.v), y.trace)
    case BoolOperand(id, w) =>
      Outcome(FromBool(Wrap(w, world.operand(id, trace)) != 0), trace + [id])
    case Relation(op, l, r) =>
      var x := Eval(turbo, world, l, trace);
      var y := Eval(turbo, world, r, x.trace);
      Outcome(FromBool(Relates(op, x.v, y.v)), y.trace)
    case Not(b) =>
      var x := Eval(turbo, world, b, trace);
      Outcome(1 - x.v, x.trace)
    case Logic(op, full, l, r) =>
      var x := Eval(turbo, world, l, trace);
      if ShortCircuits(turbo, op, full) && x.v == FromBool(!IsAnd(op)) then x
      else
        var y := Eval(turbo, world, r, x.trace);
        Outcome(FromBool(if IsAnd(op) then x.v == 1 && y.v == 1 else x.v == 1 || y.v == 1), y.trace)
  }

  // ---- the function being built, as a value ----

  /** `cur` is the insertion block, `next` the next unused register. */
  datatype Fn = Fn(code: seq<Block>, cur: nat, next: nat) {
    predicate Valid() { cur < |code| }
    predicate Open() { Valid() && code[cur].term == Unterminated }
    /** One past the last instruction of the insertion block. */
    function End(): nat requires Valid() { |code[cur].insts| }
  }

  function Append(f: Fn, i: Inst): Fn
    requires f.Valid()
  {
    f.(code := f.code[f.cur := f.code[f.cur].(insts := f.code[f.cur].insts + [i])], next := f.next + 1)
  }

  function Terminate(f: Fn, t: Term): Fn
    requires f.Valid()
  {
    f.(code := f.code[f.cur := f.code[f.cur].(term := t)])
  }

  function NewBlock(f: Fn): Fn {
    f.(code := f.code + [Block([], Unterminated)])
  }

  /** Replaces the insertion block's last instruction, a phi, by itself with one more edge. */
  function AddIncoming(f: Fn, v: Value, from: nat): Fn
    requires f.Valid() && f.End() > 0 && f.code[f.cur].insts[f.End() - 1].Phi?
  {
    var phi := f.code[f.cur].insts[f.End() - 1];
    f.(code := f.code[f.cur := f.code[f.cur].(
      insts := f.code[f.cur].insts[f.End() - 1 := phi.(incoming := phi.incoming + [(from, v)])])])
  }

  datatype Emitted = Emitted(f: Fn, v: Value)

  // ---- conversions ----

  function CoerceTo(f: Fn, v: Value, w: nat, signed: bool): (r: Emitted)
    requires f.Valid()
    ensures r.f.Valid() && |r.f.code| == |f.code| && r.f.cur == f.cur && r.v.w == w
  {
    if v.w == w then Emitted(f, v)
    else
      var i := if v.w > w then Trunc(f.next, w, v)
               else if signed then SExt(f.next, w, v) else ZExt(f.next, w, v);
      Emitted(Append(f, i), Reg(f.next, w))
  }

  function ToI64(f: Fn, v: Value, signed: bool): (r: Emitted)
    requires f.Valid()
    ensures r.f.Valid() && |r.f.code| == |f.code| && r.f.cur == f.cur && r.v.w == 64
  {
    if v.w == 64 then Emitted(f, v)
    else Emitted(Append(f, if signed then SExt(f.next, 64, v) else ZExt(f.next, 64, v)), Reg(f.next, 64))
  }

  function EnsureI1(f: Fn, v: Value): (r: Emitted)
    requires f.Valid()
    ensures r.f.Valid() && |r.f.code| == |f.code| && r.f.cur == f.cur && r.v.w == 1
  {
    if v.w == 1 then Emitted(f, v)
    else Emitted(Append(f, ICmp(f.next, NE, v, Imm(v.w, 0))), Reg(f.next, 1))
  }

  // ---- width and sign unification ----

  /** A literal of 2^63 or more is of the unsigned 64-bit type. */
  predicate IsHigh(v: int) { v >= Pow2(63) }

  /** The int64 a literal is kept as: a high one wraps round. */
  function StoredLiteral(v: int): int {
    if IsHigh(v) then v - Pow2(64) else v
  }

  /** The signedness of the resolved type; a literal's is the dialect's Integer unless
    * it is high. */
  predicate OperandIsSigned(e: Expr) {
    match e
    case Operand(_, _, signed) => signed
    case Arith(_, ty, _, _) => ty.signed
    case IntLit(v) => !IsHigh(v)
    case _ => true
  }

  function EmittedWidth(e: Expr): nat {
    match e
    case Operand(_, w, _) => w
    case BoolOperand(_, w) => w
    case IntLit(_) => 64
    case Arith(_, _, _, _) => 64
    case _ => 1
  }

  predicate LiteralFitsWidth(v: int, w: nat, unsigned: bool) {
    w == 0 || w >= 64 || InRange(!unsigned, w, v)
  }

  /** The width an operand takes part in unification with: a literal beside a
    * variable adopts the variable's width when what it is kept as fits there. */
  function PromotionWidth(e: Expr, other: Expr): nat {
    if e.IntLit? && !other.IntLit?
       && LiteralFitsWidth(StoredLiteral(e.v), EmittedWidth(other), !OperandIsSigned(other))
    then EmittedWidth(other) else EmittedWidth(e)
  }

  function Unify(lw: nat, lSigned: bool, rw: nat, rSigned: bool): Target {
    if lSigned == rSigned then Target(if lw >= rw then lw else rw, lSigned)
    else
      var uw := if lSigned then rw else lw;
      var sw := if lSigned then lw else rw;
      if sw > uw then Target(sw, true)
      else if uw * 2 <= 64 then Target(uw * 2, true)
      else Target(uw, sw == uw)
  }

  function IntegerWidth(turbo: bool): nat { if turbo then 16 else 64 }

  /** What Sema resolves: the same table on the operands' types, where a literal is
    * an Integer unless it is high. */
  function ResolvedType(turbo: bool, e: Expr): Target {
    match e
    case Operand(_, w, signed) => Target(w, signed)
    case Arith(_, _, l, r) => CommonType(ResolvedType(turbo, l), ResolvedType(turbo, r))
    case IntLit(v) => if IsHigh(v) then Target(64, false) else Target(IntegerWidth(turbo), true)
    case _ => Target(IntegerWidth(turbo), true)
  }

  function CommonType(a: Target, b: Target): Target { Unify(a.w, a.signed, b.w, b.signed) }

  /** The types carried are those Sema resolves. */
  predicate WellTyped(turbo: bool, e: Expr) {
    match e
    case Arith(_, ty, l, r) => ty == ResolvedType(turbo, e) && WellTyped(turbo, l) && WellTyped(turbo, r)
    case Relation(_, l, r) => WellTyped(turbo, l) && WellTyped(turbo, r)
    case Not(x) => WellTyped(turbo, x)
    case Logic(_, _, l, r) => WellTyped(turbo, l) && WellTyped(turbo, r)
    case _ => true
  }

  function UnifyOperands(l: Expr, r: Expr): Target {
    Unify(PromotionWidth(l, r), OperandIsSigned(l), PromotionWidth(r, l), OperandIsSigned(r))
  }

  function RelPred(op: RelOp, signed: bool): Pred {
    match op
    case Equal => EQ
    case NotEqual => NE
    case LessThan => if signed then SLT else ULT
    case LessThanOrEqual => if signed then SLE else ULE
    case GreaterThan => if signed then SGT else UGT
    case GreaterThanOrEqual => if signed then SGE else UGE
  }

  function ArithInst(op: ArithOp): BinOp {
    match op
    case Plus => Add
    case Minus => Sub
    case Times => Mul
  }

  // ---- emission ----

  function EmitOperand(f: Fn, w: nat, id: nat): (r: Emitted)
    requires f.Valid()
    ensures r.f.Valid() && |r.f.code| == |f.code| && r.v.w == w
  {
    Emitted(Append(f, Ir.Operand(f.next, w, id)), Reg(f.next, w))
  }

  function EmitNot(f: Fn, v: Value): (r: Emitted)
    requires f.Valid()
    ensures r.f.Valid() && |r.f.code| == |f.code| && r.v.w == 1
  {
    Emitted(Append(f, Ir.Not(f.next, v)), Reg(f.next, 1))
  }

  /** `+ - *`: each operand is widened by its own signedness and the operation runs at 64 bits. */
  function EmitArith(f: Fn, op: ArithOp, lv: Value, lSigned: bool, rv: Value, rSigned: bool): (r: Emitted)
    requires f.Valid()
    ensures r.f.Valid() && |r.f.code| == |f.code| && r.v.w == 64
  {
    var a := ToI64(f, lv, lSigned);
    var b := ToI64(a.f, rv, rSigned);
    Emitted(Append(b.f, Bin(b.f.next, ArithInst(op), a.v, b.v)), Reg(b.f.next, 64))
  }

  function EmitRelation(f: Fn, op: RelOp, t: Target, lv: Value, lSigned: bool, rv: Value, rSigned: bool): (r: Emitted)
    requires f.Valid()
    ensures r.f.Valid() && |r.f.code| == |f.code| && r.v.w == 1
  {
    var a := CoerceTo(f, lv, t.w, lSigned);
    var b := CoerceTo(a.f, rv, t.w, rSigned);
    Emitted(Append(b.f, ICmp(b.f.next, RelPred(op, t.signed), a.v, b.v)), Reg(b.f.next, 1))
  }

  function EmitLogic(f: Fn, isAnd: bool, lv: Value, rv: Value): (r: Emitted)
    requires f.Valid()
    ensures r.f.Valid() && |r.f.code| == |f.code| && r.v.w == 1
  {
    Emitted(Append(f, Bin(f.next, if isAnd then BinOp.And else BinOp.Or, lv, rv)), Reg(f.next, 1))
  }

  /** Creates the three blocks of a short circuit, branches on the left value,
    * and leaves the insertion point in the right operand's block. */
  function OpenShortCircuit(f: Fn, lv: Value, isAnd: bool): (g: Fn)
    requires f.Valid()
    ensures g.Valid() && |g.code| == |f.code| + 3 && g.cur == |f.code|
  {
    var (rhsBB, endBB, shortBB) := (|f.code|, |f.code| + 1, |f.code| + 2);
    var g := NewBlock(NewBlock(NewBlock(f)));
    Terminate(g, CondBr(lv, if isAnd then rhsBB else shortBB, if isAnd then shortBB else rhsBB)).(cur := rhsBB)
  }

  /** Joins: the right operand's last block, wherever that is by now, and the
    * skip block both branch to the end block, whose phi names the two. */
  function CloseShortCircuit(f: Fn, rv: Value, endBB: nat, shortBB: nat, isAnd: bool): (r: Emitted)
    requires f.Valid() && endBB < |f.code| && shortBB < |f.code|
    ensures r.f.Valid() && |r.f.code| == |f.code| && r.v.w == 1
  {
    var fromRhs := f.cur;
    var g := Terminate(Terminate(f, Br(endBB)).(cur := shortBB), Br(endBB)).(cur := endBB);
    var phi := Append(g, Phi(g.next, []));
    Emitted(AddIncoming(AddIncoming(phi, Imm(1, FromBool(!isAnd)), shortBB), rv, fromRhs), Reg(g.next, 1))
  }

  function EmitExpr(turbo: bool, f: Fn, e: Expr): (r: Emitted)
    requires f.Valid()
    ensures r.f.Valid() && |r.f.code| >= |f.code| && r.v.w == EmittedWidth(e)
    decreases e, 0
  {
    hide OpenShortCircuit, CloseShortCircuit, EmitArith, EmitRelation, EmitLogic, EmitNot, EmitOperand, UnifyOperands;
    match e
    case Operand(id, w, _) => EmitOperand(f, w, id)
    case BoolOperand(id, w) => EmitOperand(f, w, id)
    case IntLit(v) => Emitted(f, Imm(64, v))
    case Arith(op, _, l, r) =>
      var x := EmitExpr(turbo, f, l);
      var y := EmitExpr(turbo, x.f, r);
      EmitArith(y.f, op, x.v, OperandIsSigned(l), y.v, OperandIsSigned(r))
    case Relation(op, l, r) =>
      var x := EmitExpr(turbo, f, l);
      var y := EmitExpr(turbo, x.f, r);
      EmitRelation(y.f, op, UnifyOperands(l, r), x.v, OperandIsSigned(l), y.v, OperandIsSigned(r))
    case Not(b) =>
      var x := EmitI1(turbo, f, b);
      EmitNot(x.f, x.v)
    case Logic(op, full, l, r) =>
      var x := EmitI1(turbo, f, l);
      if ShortCircuits(turbo, op, full) then
        var y := EmitI1(turbo, OpenShortCircuit(x.f, x.v, IsAnd(op)), r);
        CloseShortCircuit(y.f, y.v, |x.f.code| + 1, |x.f.code| + 2, IsAnd(op))
      else
        var y := EmitI1(turbo, x.f, r);
        EmitLogic(y.f, IsAnd(op), x.v, y.v)
  }

  function EmitI1(turbo: bool, f: Fn, e: Expr): (r: Emitted)
    requires f.Valid()
    ensures r.f.Valid() && |r.f.code| >= |f.code| && r.v.w == 1
    decreases e, 1
  {
    var x := EmitExpr(turbo, f, e);
    EnsureI1(x.f, x.v)
  }

  /** What an assignment's integer conversion stores into a `w`-bit variable. */
  function EmitStoreValue(turbo: bool, f: Fn, e: Expr, w: nat): Emitted
    requires f.Valid()
  {
    var x := EmitExpr(turbo, f, e);
    CoerceTo(x.f, x.v, w, OperandIsSigned(e))
  }
}
