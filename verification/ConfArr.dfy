/** The shadow stack of conformant-array copies: marks and unwinds against the
  * activations that own the blocks, over calls, returns and non-local gotos. */
module ConfArr {
  type Block = nat

  // ---- who owns what ----

  /** What the program does: a call that copies `copies` arrays, in a procedure
    * that may have labels jumped to from inside; a return; a goto out to the
    * activation at `target`, counted from the program block at 0. */
  datatype Event = Call(copies: nat, labels: bool) | Return | Goto(target: nat)

  datatype Activation = Activation(own: seq<Block>, labels: bool)

  /** The live activations, the next block the allocator hands out, and what has
    * been freed, in order. */
  datatype Owners = Owners(acts: seq<Activation>, next: nat, freed: seq<Block>)

  function Fresh(next: nat, n: nat): (r: seq<Block>)
    ensures |r| == n && forall i | 0 <= i < n :: r[i] == next + i
  {
    seq(n, i => next + i)
  }

  function Reverse(s: seq<Block>): (r: seq<Block>)
    ensures |r| == |s|
  {
    if s == [] then [] else [s[|s| - 1]] + Reverse(s[..|s| - 1])
  }

  /** The blocks of some activations, in the order they were pushed. */
  function Blocks(acts: seq<Activation>): seq<Block> {
    if acts == [] then [] else Blocks(acts[..|acts| - 1]) + acts[|acts| - 1].own
  }

  predicate Possible(o: Owners, e: Event) {
    match e
    case Call(_, _) => true
    case Return => |o.acts| > 1
    case Goto(t) => t + 1 < |o.acts| && o.acts[t].labels
  }

  /** An activation that ends gives its blocks back, the innermost one first. */
  function Ends(o: Owners, keep: nat): Owners
    requires keep <= |o.acts|
  {
    Owners(o.acts[..keep], o.next, o.freed + Reverse(Blocks(o.acts[keep..])))
  }

  function Live(o: Owners, e: Event): Owners
    requires Possible(o, e)
  {
    match e
    case Call(n, labels) => Owners(o.acts + [Activation(Fresh(o.next, n), labels)], o.next + n, o.freed)
    case Return => Ends(o, |o.acts| - 1)
    case Goto(t) => Ends(o, t + 1)
  }

  // ---- what the compiled program does ----

  /** A frame remembers two depths of the stack: one from before its own copies
    * were made, if it makes any, and one from after, if it can be jumped to. */
  datatype Mark = NoMark | Mark(depth: nat)
  datatype Frame = Frame(entry: Mark, landing: Mark)

  datatype Machine = Machine(frames: seq<Frame>, stack: seq<Block>, next: nat, freed: seq<Block>)

  function Unwind(m: Machine, mark: nat): Machine
    decreases |m.stack|
  {
    if |m.stack| <= mark then m
    else
      var top := |m.stack| - 1;
      Unwind(m.(stack := m.stack[..top], freed := m.freed + [m.stack[top]]), mark)
  }

  /** Whether the machine can take the event at all. */
  predicate Ready(m: Machine, e: Event) {
    match e
    case Call(_, _) => true
    case Return => |m.frames| > 1
    case Goto(t) => t + 1 < |m.frames| && m.frames[t].landing.Mark?
  }

  function Step(m: Machine, e: Event): Machine
    requires Ready(m, e)
  {
    match e
    case Call(n, labels) =>
      var entry := if n > 0 then Mark(|m.stack|) else NoMark;
      var stack := m.stack + Fresh(m.next, n);
      var landing := if labels then Mark(|stack|) else NoMark;
      Machine(m.frames + [Frame(entry, landing)], stack, m.next + n, m.freed)
    case Return =>
      var f := m.frames[|m.frames| - 1];
      var u := if f.entry.Mark? then Unwind(m, f.entry.depth) else m;
      u.(frames := m.frames[..|m.frames| - 1])
    case Goto(t) =>
      Unwind(m, m.frames[t].landing.depth).(frames := m.frames[..t + 1])
  }

  // ---- they agree ----

  function Depth(acts: seq<Activation>): nat { |Blocks(acts)| }

  /** The marks are the depths they should be, and the stack is the blocks of the
    * live activations in push order. */
  ghost predicate Refines(m: Machine, o: Owners) {
    && |m.frames| == |o.acts| && m.stack == Blocks(o.acts) && m.next == o.next && m.freed == o.freed
    && forall i | 0 <= i < |o.acts| :: FrameOk(m.frames[i], o.acts, i)
  }

  ghost predicate FrameOk(f: Frame, acts: seq<Activation>, i: int)
    requires 0 <= i < |acts|
  {
    && f.entry == (if acts[i].own == [] then NoMark else Mark(Depth(acts[..i])))
    && f.landing == (if acts[i].labels then Mark(Depth(acts[..i + 1])) else NoMark)
  }

  lemma {:induction false} BlocksJoin(a: seq<Activation>, b: seq<Activation>)
    ensures Blocks(a + b) == Blocks(a) + Blocks(b)
  {
    if b == [] {
      assert a + b == a;
    } else {
      assert (a + b)[..|a + b| - 1] == a + b[..|b| - 1];
      BlocksJoin(a, b[..|b| - 1]);
    }
  }

  lemma {:induction false} UnwindIs(m: Machine, mark: nat)
    requires mark <= |m.stack|
    ensures Unwind(m, mark) == m.(stack := m.stack[..mark], freed := m.freed + Reverse(m.stack[mark..]))
    decreases |m.stack|
  {
    hide Reverse;
    if |m.stack| == mark {
      NothingReversed();
      assert m.stack[mark..] == [] && m.stack[..mark] == m.stack;
    } else {
      var top := |m.stack| - 1;
      UnwindIs(m.(stack := m.stack[..top], freed := m.freed + [m.stack[top]]), mark);
      UnwindOne(m.stack, mark);
      assert m.stack[..top][..mark] == m.stack[..mark];
    }
  }

  lemma NothingReversed()
    ensures Reverse([]) == []
  {
  }

  /** The top block is the first freed. */
  lemma {:induction false} UnwindOne(stack: seq<Block>, mark: nat)
    requires mark < |stack|
    ensures Reverse(stack[mark..]) == [stack[|stack| - 1]] + Reverse(stack[..|stack| - 1][mark..])
  {
    var (top, s) := (|stack| - 1, stack[mark..]);
    Slices(stack, mark, top);
    assert s[|s| - 1] == stack[top] && s[..|s| - 1] == s[..top - mark];
  }

  lemma Slices(s: seq<Block>, a: nat, b: nat)
    requires a <= b <= |s|
    ensures s[a..][..b - a] == s[..b][a..]
  {
    var (x, y) := (s[a..][..b - a], s[..b][a..]);
    assert |x| == |y| && forall k | 0 <= k < b - a :: x[k] == s[a + k] == y[k];
  }

  /** Cutting the live activations cuts the stack at the depth they reach. */
  lemma CutAt(acts: seq<Activation>, keep: nat)
    requires keep <= |acts|
    ensures var d := Depth(acts[..keep]);
            && d <= |Blocks(acts)| && Blocks(acts)[..d] == Blocks(acts[..keep])
            && Blocks(acts)[d..] == Blocks(acts[keep..])
  {
    BlocksJoin(acts[..keep], acts[keep..]);
    assert acts[..keep] + acts[keep..] == acts;
  }

  lemma FramesKept(m: Machine, o: Owners, keep: nat)
    requires |m.frames| == |o.acts| && keep <= |o.acts|
    requires forall i | 0 <= i < |o.acts| :: FrameOk(m.frames[i], o.acts, i)
    ensures forall i | 0 <= i < keep :: FrameOk(m.frames[..keep][i], o.acts[..keep], i)
  {
    forall i | 0 <= i < keep
      ensures FrameOk(m.frames[..keep][i], o.acts[..keep], i)
    {
      assert FrameOk(m.frames[i], o.acts, i);
      assert o.acts[..keep][..i] == o.acts[..i] && o.acts[..keep][..i + 1] == o.acts[..i + 1];
    }
  }

  lemma {:induction false} CallRefines(m: Machine, o: Owners, n: nat, labels: bool)
    requires Refines(m, o)
    ensures Refines(Step(m, Call(n, labels)), Live(o, Call(n, labels)))
  {
    hide Blocks;
    var a := Activation(Fresh(o.next, n), labels);
    var acts := o.acts + [a];
    BlocksJoin(o.acts, [a]);
    OneActivation(a);
    assert acts[..|o.acts|] == o.acts && acts[..|o.acts| + 1] == acts;
    var t := Step(m, Call(n, labels));
    forall i | 0 <= i < |o.acts|
      ensures FrameOk(t.frames[i], acts, i)
    {
      assert FrameOk(m.frames[i], o.acts, i) && t.frames[i] == m.frames[i];
      assert acts[..i] == o.acts[..i] && acts[..i + 1] == o.acts[..i + 1];
    }
    assert FrameOk(t.frames[|o.acts|], acts, |o.acts|);
  }

  lemma OneActivation(a: Activation)
    ensures Blocks([a]) == a.own
  {
    assert [a][..0] == [];
  }

  /** A return gives back the blocks of the activation that returns and no other;
    * one that pushed none needs no mark to give back nothing. */
  lemma {:induction false} ReturnRefines(m: Machine, o: Owners)
    requires Refines(m, o) && |o.acts| > 1
    ensures Refines(Step(m, Return), Live(o, Return))
  {
    hide Blocks, Unwind;
    var keep := |o.acts| - 1;
    assert FrameOk(m.frames[keep], o.acts, keep);
    CutAt(o.acts, keep);
    assert o.acts[keep..] == [o.acts[keep]];
    OneActivation(o.acts[keep]);
    FramesKept(m, o, keep);
    var d := Depth(o.acts[..keep]);
    UnwindIs(m, d);
    if o.acts[keep].own == [] {
      assert m.stack[..d] == m.stack;
      assert m.freed + Reverse([]) == m.freed;
    }
  }

  lemma {:induction false} GotoRefines(m: Machine, o: Owners, t: nat)
    requires Refines(m, o) && Possible(o, Goto(t))
    ensures Ready(m, Goto(t)) && Refines(Step(m, Goto(t)), Live(o, Goto(t)))
  {
    hide Blocks, Unwind;
    assert FrameOk(m.frames[t], o.acts, t);
    CutAt(o.acts, t + 1);
    FramesKept(m, o, t + 1);
    UnwindIs(m, Depth(o.acts[..t + 1]));
  }

  // ---- over whole runs ----

  ghost predicate Plays(o: Owners, events: seq<Event>)
    decreases |events|
  {
    events == [] || (Possible(o, events[0]) && Plays(Live(o, events[0]), events[1..]))
  }

  function After(o: Owners, events: seq<Event>): Owners
    requires Plays(o, events)
    decreases |events|
  {
    if events == [] then o else After(Live(o, events[0]), events[1..])
  }

  ghost predicate Runs(m: Machine, events: seq<Event>)
    decreases |events|
  {
    events == [] || (Ready(m, events[0]) && Runs(Step(m, events[0]), events[1..]))
  }

  function Result(m: Machine, events: seq<Event>): Machine
    requires Runs(m, events)
    decreases |events|
  {
    if events == [] then m else Result(Step(m, events[0]), events[1..])
  }

  /** Whatever the program does, the marks come to what ownership demands. */
  lemma {:induction false} RunRefines(m: Machine, o: Owners, events: seq<Event>)
    requires Refines(m, o) && Plays(o, events)
    ensures Runs(m, events) && Refines(Result(m, events), After(o, events))
    decreases |events|
  {
    hide Refines, Step, Live;
    if events != [] {
      StepRefines(m, o, events[0]);
      RunRefines(Step(m, events[0]), Live(o, events[0]), events[1..]);
    }
  }

  lemma {:induction false} StepRefines(m: Machine, o: Owners, e: Event)
    requires Refines(m, o) && Possible(o, e)
    ensures Ready(m, e) && Refines(Step(m, e), Live(o, e))
  {
    match e
    case Call(n, labels) => CallRefines(m, o, n, labels);
    case Return => ReturnRefines(m, o);
    case Goto(t) => GotoRefines(m, o, t);
  }

  /** Every block handed out so far is live or freed, and is so just once. */
  ghost predicate Accounted(o: Owners) {
    var all := Blocks(o.acts) + o.freed;
    && |all| == o.next
    && (forall b | 0 <= b < o.next :: b in all)
    && (forall b <- all :: b < o.next)
  }

  lemma {:induction false} ReverseMembers(s: seq<Block>)
    ensures forall b :: b in Reverse(s) <==> b in s
  {
    if s != [] {
      ReverseMembers(s[..|s| - 1]);
      assert s == s[..|s| - 1] + [s[|s| - 1]];
    }
  }

  lemma {:induction false} EndsAccounted(o: Owners, keep: nat)
    requires keep <= |o.acts| && Accounted(o)
    ensures Accounted(Ends(o, keep))
  {
    hide Blocks, Reverse;
    BlocksJoin(o.acts[..keep], o.acts[keep..]);
    assert o.acts[..keep] + o.acts[keep..] == o.acts;
    ReverseMembers(Blocks(o.acts[keep..]));
    var (kept, gone) := (Blocks(o.acts[..keep]), Blocks(o.acts[keep..]));
    var (before, after) := (kept + gone + o.freed, kept + (o.freed + Reverse(gone)));
    assert Blocks(o.acts) + o.freed == before;
    forall b
      ensures b in before <==> b in after
    {
      assert b in after <==> b in kept || b in o.freed || b in Reverse(gone);
    }
  }

  lemma {:induction false} CallAccounted(o: Owners, n: nat, labels: bool)
    requires Accounted(o)
    ensures Accounted(Live(o, Call(n, labels)))
  {
    hide Blocks;
    var (made, p) := (Fresh(o.next, n), Live(o, Call(n, labels)));
    BlocksJoin(o.acts, [Activation(made, labels)]);
    OneActivation(Activation(made, labels));
    forall b | 0 <= b < p.next
      ensures b in Blocks(p.acts) + p.freed
    {
      if b >= o.next {
        assert made[b - o.next] == b;
      } else {
        assert b in Blocks(o.acts) + o.freed;
      }
    }
    assert forall b <- made :: b < p.next;
    assert forall b <- Blocks(o.acts) + o.freed :: b < p.next;
    assert forall b :: b in Blocks(p.acts) + p.freed <==> b in Blocks(o.acts) + o.freed || b in made;
  }

  lemma {:induction false} RunAccounted(o: Owners, events: seq<Event>)
    requires Accounted(o) && Plays(o, events)
    ensures Accounted(After(o, events))
    decreases |events|
  {
    hide Accounted, Live;
    if events != [] {
      match events[0] {
        case Call(n, labels) => CallAccounted(o, n, labels);
        case Return => EndsAre(o, events[0], |o.acts| - 1);
        case Goto(t) => EndsAre(o, events[0], t + 1);
      }
      RunAccounted(Live(o, events[0]), events[1..]);
    }
  }

  lemma EndsAre(o: Owners, e: Event, keep: nat)
    requires Possible(o, e) && Accounted(o) && !e.Call?
    requires keep == if e.Return? then |o.acts| - 1 else e.target + 1
    ensures Accounted(Live(o, e))
  {
    EndsAccounted(o, keep);
  }

  /** A list as long as the numbers it covers holds each of them once. */
  lemma {:induction false} CoveringIsOnce(s: seq<nat>, n: nat)
    requires |s| == n && forall b | 0 <= b < n :: b in s
    ensures forall i, j | 0 <= i < j < |s| :: s[i] != s[j]
  {
    forall i, j | 0 <= i < j < |s|
      ensures s[i] != s[j]
    {
      if s[i] == s[j] {
        var t := s[..j] + s[j + 1..];
        forall b | 0 <= b < n
          ensures b in t
        {
          assert b in s;
          var k :| 0 <= k < |s| && s[k] == b;
          if k < j {
            assert t[k] == b;
          } else if k > j {
            assert t[k - 1] == b;
          } else {
            assert t[i] == b;
          }
        }
        var missed := Missing(t, n);
      }
    }
  }

  /** A list shorter than that misses one of them. */
  lemma {:induction false} Missing(s: seq<nat>, n: nat) returns (b: nat)
    requires |s| < n
    ensures b < n && b !in s
  {
    b := n - 1;
    if b in s {
      var k :| 0 <= k < |s| && s[k] == n - 1;
      var t := s[..k] + s[k + 1..];
      b := Missing(t, n - 1);
      forall i | 0 <= i < |s|
        ensures s[i] != b
      {
        assert i < k ==> t[i] == s[i];
        assert i > k ==> t[i - 1] == s[i];
      }
    }
  }

  /** The program block, entered once, perhaps with labels of its own. */
  function Start(labels: bool): Owners { Owners([Activation([], labels)], 0, []) }

  function Boot(labels: bool): Machine {
    Machine([Frame(NoMark, if labels then Mark(0) else NoMark)], [], 0, [])
  }

  lemma Starts(labels: bool)
    ensures Refines(Boot(labels), Start(labels)) && Accounted(Start(labels))
  {
    var acts := Start(labels).acts;
    OneActivation(acts[0]);
    assert acts[..0] == [] && acts[..1] == acts;
    assert FrameOk(Boot(labels).frames[0], acts, 0);
  }

  /** From the start of a program, over every run: what is on the stack is the
    * blocks of the live activations in push order; every block handed out is
    * either there or has been freed, and none is so twice. */
  lemma {:induction false} EveryRun(labels: bool, events: seq<Event>)
    requires Plays(Start(labels), events)
    ensures Runs(Boot(labels), events)
    ensures var (m, o) := (Result(Boot(labels), events), After(Start(labels), events));
            && m.stack == Blocks(o.acts) && m.freed == o.freed && m.next == o.next
            && (forall b :: b in m.stack + m.freed <==> 0 <= b < m.next)
            && (forall i, j | 0 <= i < j < |m.stack + m.freed| :: (m.stack + m.freed)[i] != (m.stack + m.freed)[j])
  {
    Starts(labels);
    RunRefines(Boot(labels), Start(labels), events);
    RunAccounted(Start(labels), events);
    hide Blocks, Runs, Plays;
    var o := After(Start(labels), events);
    CoveringIsOnce(Blocks(o.acts) + o.freed, o.next);
  }

  // ---- the stack in memory ----

  /** The runtime's array and its top; `freed` is the heap's side of it. */
  class ShadowStack {
    var slots: array<Block>
    var top: nat
    ghost var freed: seq<Block>

    ghost predicate Valid()
      reads this
    {
      top <= slots.Length
    }

    ghost function Contents(): seq<Block>
      reads this, slots
      requires Valid()
    {
      slots[..top]
    }

    constructor ()
      ensures Valid() && Contents() == [] && freed == [] && fresh(slots)
    {
      slots := new Block[0];
      top, freed := 0, [];
    }

    method GetMark() returns (m: nat)
      requires Valid()
      ensures m == |Contents()|
    {
      m := top;
    }

    /** Doubles the array when it is full. */
    method Push(b: Block)
      requires Valid()
      modifies this, slots
      ensures Valid() && Contents() == old(Contents()) + [b] && freed == old(freed)
      ensures slots == old(slots) || fresh(slots)
    {
      if top == slots.Length {
        var grown := new Block[if slots.Length > 0 then slots.Length * 2 else 16];
        forall i | 0 <= i < top {
          grown[i] := slots[i];
        }
        assert grown[..top] == Contents();
        slots := grown;
      }
      slots[top] := b;
      top := top + 1;
    }

    /** Frees every block pushed since `mark`, the latest first. */
    method UnwindTo(mark: nat)
      requires Valid()
      modifies this`top, this`freed
      ensures Valid()
      ensures var m := Unwind(Machine([], old(Contents()), 0, old(freed)), mark);
              Contents() == m.stack && freed == m.freed
    {
      while top > mark
        invariant Valid()
        invariant Unwind(Machine([], Contents(), 0, freed), mark)
                  == Unwind(Machine([], old(Contents()), 0, old(freed)), mark)
      {
        assert Contents()[..top - 1] == slots[..top - 1];
        top := top - 1;
        freed := freed + [slots[top]];
      }
    }

    /** One activation, from its entry to its return: it pushes the copies of its
      * parameters above the mark it took, and its return frees just those. */
    method Activate(copies: seq<Block>)
      requires Valid()
      modifies this, slots
      ensures Valid() && Contents() == old(Contents()) && freed == old(freed) + Reverse(copies)
      ensures slots == old(slots) || fresh(slots)
    {
      ghost var was := Contents();
      var mark := GetMark();
      for i := 0 to |copies|
        invariant Valid() && Contents() == was + copies[..i] && freed == old(freed)
        invariant slots == old(slots) || fresh(slots)
      {
        Push(copies[i]);
        assert was + copies[..i] + [copies[i]] == was + copies[..i + 1];
      }
      assert copies[..|copies|] == copies;
      UnwindIs(Machine([], was + copies, 0, freed), mark);
      assert (was + copies)[..mark] == was && (was + copies)[mark..] == copies;
      UnwindTo(mark);
    }
  }
}
