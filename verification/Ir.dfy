/** The part of LLVM IR that expression lowering uses, with an interpreter:
  * basic blocks, conditional branches, phi nodes and integer instructions of
  * arbitrary width. Anything ill-typed or undefined gets stuck. */
module Ir {
  import opened Bits

  datatype Option<+T> = None | Some(value: T)

  /** A runtime integer: `w` bits wide. */
  datatype Val = Val(w: nat, bits: nat)

  /** An operand of an instruction, carrying its type as `llvm::Value` does. */
  datatype Value = Reg(reg: nat, w: nat) | Imm(w: nat, v: int)

  datatype BinOp = Add | Sub | Mul | And | Or
  datatype Pred = EQ | NE | ULT | ULE | UGT | UGE | SLT | SLE | SGT | SGE

  datatype Inst =
    | Operand(dst: nat, w: nat, id: nat)
    | SExt(dst: nat, w: nat, src: Value)
    | ZExt(dst: nat, w: nat, src: Value)
    | Trunc(dst: nat, w: nat, src: Value)
    | Bin(dst: nat, op: BinOp, a: Value, b: Value)
    | Not(dst: nat, src: Value)
    | ICmp(dst: nat, p: Pred, a: Value, b: Value)
    | Phi(dst: nat, incoming: seq<(nat, Value)>)

  datatype Term = Unterminated | Br(target: nat) | CondBr(c: Value, ifTrue: nat, ifFalse: nat)

  datatype Block = Block(insts: seq<Inst>, term: Term)

  /** What an operand evaluates to may depend on everything evaluated before
    * it, so a swapped or repeated evaluation is observable. */
  datatype World = World(operand: (nat, seq<nat>) -> int)

  datatype State = State(blk: nat, pc: nat, prev: nat, regs: map<nat, Val>, trace: seq<nat>)

  function Lookup(regs: map<nat, Val>, x: Value): Option<Val> {
    match x
    case Imm(w, v) => Some(Val(w, Wrap(w, v)))
    case Reg(r, w) => if r in regs && regs[r].w == w then Some(regs[r]) else None
  }

  function BinBits(op: BinOp, w: nat, a: nat, b: nat): nat {
    match op
    case Add => Wrap(w, a + b)
    case Sub => Wrap(w, a - b)
    case Mul => Wrap(w, a * b)
    case And => BitAnd(w, a, b)
    case Or => BitOr(w, a, b)
  }

  function BitAnd(w: nat, a: nat, b: nat): nat {
    if w == 0 then 0 else FromBool(a % 2 == 1 && b % 2 == 1) + 2 * BitAnd(w - 1, a / 2, b / 2)
  }

  function BitOr(w: nat, a: nat, b: nat): nat {
    if w == 0 then 0 else FromBool(a % 2 == 1 || b % 2 == 1) + 2 * BitOr(w - 1, a / 2, b / 2)
  }

  predicate Compare(p: Pred, w: nat, a: nat, b: nat)
    requires w >= 1
  {
    match p
    case EQ => a == b
    case NE => a != b
    case ULT => a < b
    case ULE => a <= b
    case UGT => a > b
    case UGE => a >= b
    case SLT => Signed(w, a) < Signed(w, b)
    case SLE => Signed(w, a) <= Signed(w, b)
    case SGT => Signed(w, a) > Signed(w, b)
    case SGE => Signed(w, a) >= Signed(w, b)
  }

  function FromBool(b: bool): nat { if b then 1 else 0 }

  function Define(s: State, dst: nat, v: Val): State {
    s.(pc := s.pc + 1, regs := s.regs[dst := v])
  }

  /** The value a phi takes when control came from `prev`. */
  function Incoming(inc: seq<(nat, Value)>, prev: nat): Option<Value> {
    if inc == [] then None
    else if inc[0].0 == prev then Some(inc[0].1)
    else Incoming(inc[1..], prev)
  }

  function Exec(world: World, s: State, i: Inst): Option<State> {
    match i
    case Operand(dst, w, id) =>
      Some(Define(s, dst, Val(w, Wrap(w, world.operand(id, s.trace)))).(trace := s.trace + [id]))
    case SExt(dst, w, src) =>
      var x := Lookup(s.regs, src);
      if x.Some? && 1 <= x.value.w < w
      then Some(Define(s, dst, Val(w, Wrap(w, Signed(x.value.w, x.value.bits))))) else None
    case ZExt(dst, w, src) =>
      var x := Lookup(s.regs, src);
      if x.Some? && x.value.w < w then Some(Define(s, dst, Val(w, x.value.bits))) else None
    case Trunc(dst, w, src) =>
      var x := Lookup(s.regs, src);
      if x.Some? && x.value.w > w then Some(Define(s, dst, Val(w, Wrap(w, x.value.bits)))) else None
    case Bin(dst, op, a, b) =>
      var (x, y) := (Lookup(s.regs, a), Lookup(s.regs, b));
      if x.Some? && y.Some? && x.value.w == y.value.w
      then Some(Define(s, dst, Val(x.value.w, BinBits(op, x.value.w, x.value.bits, y.value.bits)))) else None
    case Not(dst, src) =>
      var x := Lookup(s.regs, src);
      if x.Some? then Some(Define(s, dst, Val(x.value.w, Wrap(x.value.w, -1 - x.value.bits)))) else None
    case ICmp(dst, p, a, b) =>
      var (x, y) := (Lookup(s.regs, a), Lookup(s.regs, b));
      if x.Some? && y.Some? && x.value.w == y.value.w >= 1
      then Some(Define(s, dst, Val(1, FromBool(Compare(p, x.value.w, x.value.bits, y.value.bits))))) else None
    case Phi(dst, incoming) =>
      var v := Incoming(incoming, s.prev);
      var x := if v.Some? then Lookup(s.regs, v.value) else None;
      if x.Some? then Some(Define(s, dst, x.value)) else None
  }

  function Jump(s: State, target: nat): State {
    s.(blk := target, pc := 0, prev := s.blk)
  }

  /** One step; None when stuck, which includes running off an open block. */
  function Step(world: World, code: seq<Block>, s: State): Option<State> {
    if s.blk >= |code| then None
    else
      var b := code[s.blk];
      if s.pc < |b.insts| then Exec(world, s, b.insts[s.pc])
      else match b.term
           case Unterminated => None
           case Br(t) => Some(Jump(s, t))
           case CondBr(c, t, f) =>
             var x := Lookup(s.regs, c);
             if x.Some? && x.value.w == 1
             then Some(Jump(s, if x.value.bits == 1 then t else f)) else None
  }

  function Run(world: World, code: seq<Block>, s: State, n: nat): Option<State>
    decreases n
  {
    if n == 0 then Some(s)
    else
      var t := Step(world, code, s);
      if t.Some? then Run(world, code, t.value, n - 1) else None
  }

  ghost predicate Reaches(world: World, code: seq<Block>, s: State, t: State) {
    exists n: nat :: Run(world, code, s, n) == Some(t)
  }

  lemma {:induction false} RunSplit(world: World, code: seq<Block>, s: State, n: nat, t: State, m: nat)
    requires Run(world, code, s, n) == Some(t)
    ensures Run(world, code, s, n + m) == Run(world, code, t, m)
    decreases n
  {
    if n > 0 {
      RunSplit(world, code, Step(world, code, s).value, n - 1, t, m);
    }
  }

  lemma {:induction false} ReachesTrans(world: World, code: seq<Block>, s: State, t: State, u: State)
    requires Reaches(world, code, s, t) && Reaches(world, code, t, u)
    ensures Reaches(world, code, s, u)
  {
    var n: nat :| Run(world, code, s, n) == Some(t);
    var m: nat :| Run(world, code, t, m) == Some(u);
    RunSplit(world, code, s, n, t, m);
    assert Run(world, code, s, n + m) == Some(u);
  }

  lemma {:induction false} ReachesStep(world: World, code: seq<Block>, s: State, t: State)
    requires Step(world, code, s) == Some(t)
    ensures Reaches(world, code, s, t)
  {
    assert Run(world, code, t, 0) == Some(t);
    assert Run(world, code, s, 1) == Some(t);
  }

  /** Later emission only appends to open blocks, closes them, and adds blocks. */
  ghost predicate Extends(c: seq<Block>, d: seq<Block>) {
    && |c| <= |d|
    && forall i | 0 <= i < |c| ::
         && c[i].insts <= d[i].insts
         && (c[i].term != Unterminated ==> c[i] == d[i])
  }

  lemma {:induction false} ExtendsTrans(c: seq<Block>, d: seq<Block>, e: seq<Block>)
    requires Extends(c, d) && Extends(d, e)
    ensures Extends(c, e)
  {
    forall i | 0 <= i < |c|
      ensures c[i].insts <= e[i].insts && (c[i].term != Unterminated ==> c[i] == e[i])
    {
      assert c[i].insts <= d[i].insts && d[i].insts <= e[i].insts;
    }
  }

  lemma {:induction false} RunExtends(world: World, c: seq<Block>, d: seq<Block>, s: State, n: nat)
    requires Extends(c, d) && Run(world, c, s, n).Some?
    ensures Run(world, d, s, n) == Run(world, c, s, n)
    decreases n
  {
    if n > 0 {
      var b := c[s.blk];
      assert Step(world, d, s) == Step(world, c, s) by {
        if s.pc < |b.insts| {
          assert d[s.blk].insts[s.pc] == b.insts[s.pc];
        }
      }
      RunExtends(world, c, d, Step(world, c, s).value, n - 1);
    }
  }

  lemma {:induction false} ReachesExtends(world: World, c: seq<Block>, d: seq<Block>, s: State, t: State)
    requires Extends(c, d) && Reaches(world, c, s, t)
    ensures Reaches(world, d, s, t)
  {
    var n: nat :| Run(world, c, s, n) == Some(t);
    RunExtends(world, c, d, s, n);
  }
}
