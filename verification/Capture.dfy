/** writestr's nested capture: a stack of buffers that output falls into, and
  * standard output below them all. */
module Capture {
  import opened Bytes
  import opened Memory

  // ---- what the redirection means ----

  /** The texts under way, innermost last, and what has gone to standard output. */
  datatype Nesting = Nesting(texts: seq<bytes>, out: bytes)

  function Push(n: Nesting): Nesting { n.(texts := n.texts + [[]]) }

  function Put(n: Nesting, data: bytes): Nesting {
    if n.texts == [] then n.(out := n.out + data)
    else
      var top := |n.texts| - 1;
      n.(texts := n.texts[top := n.texts[top] + data])
  }

  function Top(n: Nesting): bytes {
    if n.texts == [] then [] else n.texts[|n.texts| - 1]
  }

  function Pop(n: Nesting): Nesting {
    if n.texts == [] then n else n.(texts := n.texts[..|n.texts| - 1])
  }

  // ---- the three kinds of destination ----

  datatype Dest = Ep(cap: nat) | Fixed(n: nat) | Short(limit: int)

  function Padded(text: bytes, n: nat): (r: bytes)
    ensures |r| == n
  {
    Cut(text, n) + seq(n - |Cut(text, n)|, _ => SPACE)
  }

  function ShortCap(cap: int): nat { if cap > 255 then 255 else if cap < 0 then 0 else cap }

  function Delivered(d: Dest, text: bytes): bytes {
    match d
    case Ep(cap) => Cut(text, cap)
    case Fixed(n) => Padded(text, n)
    case Short(cap) => Cut(text, ShortCap(cap))
  }

  /** Byte by byte: the text as far as there is room, at most 255 bytes of it for a
    * Turbo string, and spaces behind a text too short for a fixed one. */
  lemma DeliveredBytes(text: bytes, n: nat, cap: int, i: nat)
    ensures |Delivered(Fixed(n), text)| == n
    ensures i < n ==> Delivered(Fixed(n), text)[i] == if i < |text| then text[i] else 32
    ensures |Delivered(Ep(n), text)| == Min(n, |text|)
    ensures i < Min(n, |text|) ==> Delivered(Ep(n), text)[i] == text[i]
    ensures |Delivered(Short(cap), text)| == if cap < 0 then 0 else Min(Min(cap, 255), |text|)
    ensures i < |Delivered(Short(cap), text)| ==> Delivered(Short(cap), text)[i] == text[i]
  {
    var r := Cut(text, n) + seq(n - |Cut(text, n)|, _ => SPACE);
    assert Padded(text, n) == r;
    assert i < n ==> r[i] == if i < |Cut(text, n)| then Cut(text, n)[i] else SPACE;
  }

  // ---- runs ----

  datatype Event = Begin | Out(data: bytes) | End(dest: Dest)

  /** Where the events lead, and what each end delivered, in order. */
  function Run(n: Nesting, events: seq<Event>): (Nesting, seq<bytes>)
    decreases |events|
  {
    if events == [] then (n, [])
    else
      match events[0]
      case Begin => Run(Push(n), events[1..])
      case Out(data) => Run(Put(n, data), events[1..])
      case End(dest) =>
        var (m, more) := Run(Pop(n), events[1..]);
        (m, [Delivered(dest, Top(n))] + more)
  }

  /** Statements: output, and writestr around more of them. */
  datatype Program = Done | Say(data: bytes, rest: Program) | WriteStr(body: Program, dest: Dest, rest: Program)

  function Flat(p: Program): seq<Event> {
    match p
    case Done => []
    case Say(data, rest) => [Out(data)] + Flat(rest)
    case WriteStr(body, dest, rest) => [Begin] + Flat(body) + [End(dest)] + Flat(rest)
  }

  /** The output a program makes at its own depth. */
  function Own(p: Program): bytes {
    match p
    case Done => []
    case Say(data, rest) => data + Own(rest)
    case WriteStr(_, _, rest) => Own(rest)
  }

  /** What its writestrs store, inner ones first. */
  function Stores(p: Program): seq<bytes> {
    match p
    case Done => []
    case Say(_, rest) => Stores(rest)
    case WriteStr(body, dest, rest) => Stores(body) + [Delivered(dest, Own(body))] + Stores(rest)
  }

  /** Every bracket is closed and none is closed twice; `depth` are open already. */
  predicate Balanced(events: seq<Event>, depth: nat) {
    if events == [] then depth == 0
    else
      match events[0]
      case Begin => Balanced(events[1..], depth + 1)
      case Out(_) => Balanced(events[1..], depth)
      case End(_) => depth > 0 && Balanced(events[1..], depth - 1)
  }

  lemma Regroup(begin: Event, body: seq<Event>, end: Event, rest: seq<Event>, tail: seq<Event>)
    ensures ([begin] + body + [end] + rest) + tail == [begin] + (body + ([end] + (rest + tail)))
  {
  }

  /** Well-nested events are a program, up to the end of the bracket around them. */
  lemma {:induction false} Nested(events: seq<Event>, depth: nat) returns (p: Program, tail: seq<Event>)
    requires Balanced(events, depth)
    ensures events == Flat(p) + tail
    ensures if depth == 0 then tail == [] else tail != [] && tail[0].End? && Balanced(tail[1..], depth - 1)
    decreases |events|
  {
    if events == [] {
      return Done, [];
    }
    var more := events[1..];
    assert events == [events[0]] + more;
    match events[0]
    case Begin =>
      var body, close := Nested(more, depth + 1);
      var rest, t := Nested(close[1..], depth);
      assert close == [close[0]] + (Flat(rest) + t);
      p, tail := WriteStr(body, close[0].dest, rest), t;
      Regroup(events[0], Flat(body), close[0], Flat(rest), t);
    case Out(data) =>
      var rest, t := Nested(more, depth);
      p, tail := Say(data, rest), t;
    case End(_) =>
      p, tail := Done, events;
  }

  lemma {:induction false} RunJoins(n: Nesting, a: seq<Event>, b: seq<Event>)
    ensures var (m, d) := Run(n, a); var (o, e) := Run(m, b);
            Run(n, a + b) == (o, d + e)
    decreases |a|
  {
    hide Push, Put, Pop, Delivered;
    if a == [] {
      assert a + b == b && [] + Run(n, b).1 == Run(n, b).1;
    } else {
      assert (a + b)[1..] == a[1..] + b;
      match a[0]
      case Begin => RunJoins(Push(n), a[1..], b);
      case Out(data) => RunJoins(Put(n, data), a[1..], b);
      case End(dest) =>
        RunJoins(Pop(n), a[1..], b);
        var (m, d) := Run(Pop(n), a[1..]);
        assert [Delivered(dest, Top(n))] + d + Run(m, b).1 == [Delivered(dest, Top(n))] + (d + Run(m, b).1);
    }
  }

  /** A program's own output goes to the text it runs in, or to standard output;
    * each writestr in it stores its own output cut to fit, and leaves the texts
    * around it alone. */
  lemma {:induction false} ProgramRuns(n: Nesting, p: Program)
    ensures Run(n, Flat(p)) == (Put(n, Own(p)), Stores(p))
    decreases p
  {
    hide Delivered, Put, Push, Pop, Top;
    match p
    case Done =>
      PutNothing(n);
    case Say(data, rest) =>
      ProgramRuns(Put(n, data), rest);
      assert ([Out(data)] + Flat(rest))[1..] == Flat(rest);
      PutJoins(n, data, Own(rest));
    case WriteStr(body, dest, rest) =>
      var (inner, close) := (Flat(body), [End(dest)] + Flat(rest));
      assert Flat(p) == [Begin] + (inner + close) && Flat(p)[1..] == inner + close;
      ProgramRuns(Push(n), body);
      RunJoins(Push(n), inner, close);
      PutInner(n, Own(body));
      assert close[0] == End(dest) && close[1..] == Flat(rest);
      ProgramRuns(n, rest);
      assert Stores(body) + ([Delivered(dest, Own(body))] + Stores(rest)) == Stores(p);
  }

  lemma PutNothing(n: Nesting)
    ensures Put(n, []) == n
  {
    if n.texts == [] {
      assert n.out + [] == n.out;
    } else {
      assert Top(n) + [] == Top(n);
      assert n.texts[|n.texts| - 1 := Top(n)] == n.texts;
    }
  }

  lemma PutJoins(n: Nesting, a: bytes, b: bytes)
    ensures Put(Put(n, a), b) == Put(n, a + b)
  {
    if n.texts == [] {
      assert n.out + a + b == n.out + (a + b);
    } else {
      assert Top(n) + a + b == Top(n) + (a + b);
    }
  }

  lemma PutInner(n: Nesting, a: bytes)
    ensures Top(Put(Push(n), a)) == a && Pop(Put(Push(n), a)) == n
  {
    assert [] + a == a;
    assert (n.texts + [[]])[|n.texts| := a][..|n.texts|] == n.texts;
  }

  /** Every well-nested run delivers, for each writestr, what was output at its own
    * depth, and puts the rest where the run started. */
  lemma {:induction false} WellNestedRuns(n: Nesting, events: seq<Event>) returns (p: Program)
    requires Balanced(events, 0)
    ensures Flat(p) == events && Run(n, events) == (Put(n, Own(p)), Stores(p))
  {
    var tail;
    p, tail := Nested(events, 0);
    assert Flat(p) + [] == Flat(p);
    ProgramRuns(n, p);
  }

  // ---- the stack itself ----

  /** One buffer: `len` bytes of it are the text, the rest is left over. */
  datatype Frame = Frame(buf: bytes, len: nat) {
    predicate Ok() { len <= |buf| }
    function Text(): bytes
      requires Ok()
    {
      buf[..len]
    }
  }

  function Texts(stack: seq<Frame>, depth: nat): (r: seq<bytes>)
    requires depth <= |stack| && forall i | 0 <= i < depth :: stack[i].Ok()
    ensures |r| == depth
  {
    seq(depth, i requires 0 <= i < depth => stack[i].Text())
  }

  class EpString {
    var length: int
    const data: array<byte>

    constructor (capacity: nat)
      ensures length == 0 && data.Length == capacity && fresh(data)
    {
      length := 0;
      data := new byte[capacity];
    }
  }

  class CaptureStack {
    /** Slots, in use below `depth`; a slot keeps its buffer between uses. */
    var stack: seq<Frame>
    var depth: nat
    var stdout: bytes

    ghost predicate Valid()
      reads this
    {
      depth <= |stack| && forall i | 0 <= i < |stack| :: stack[i].Ok()
    }

    ghost function State(): Nesting
      reads this
      requires Valid()
    {
      Nesting(Texts(stack, depth), stdout)
    }

    constructor ()
      ensures Valid() && State() == Nesting([], [])
    {
      stack, depth, stdout := [], 0, [];
    }

    /** Doubles the number of slots until there are `need`. */
    method ReserveSlots(need: nat)
      requires Valid()
      modifies this`stack
      ensures Valid() && need <= |stack| && State() == old(State())
    {
      if need <= |stack| {
        return;
      }
      var cap := if |stack| > 0 then |stack| else 4;
      while cap < need
        invariant cap >= |stack| && cap > 0
        decreases need - cap
      {
        cap := cap * 2;
      }
      stack := stack + seq(cap - |stack|, _ => Frame([], 0));
      assert State() == old(State());
    }

    method Reserve(f: Frame, need: nat) returns (r: Frame)
      requires f.Ok()
      ensures r.Ok() && need <= |r.buf| && f.buf <= r.buf && r.len == f.len
    {
      if need <= |f.buf| {
        return f;
      }
      var cap := if |f.buf| > 0 then |f.buf| else 256;
      while cap < need
        invariant cap >= |f.buf| && cap > 0
        decreases need - cap
      {
        cap := cap * 2;
      }
      r := Frame(f.buf + seq(cap - |f.buf|, _ => 0), f.len);
    }

    method OutN(data: bytes)
      requires Valid()
      modifies this`stack, this`stdout
      ensures Valid() && State() == Put(old(State()), data)
    {
      if data == [] {
        PutNothing(State());
        return;
      }
      if depth == 0 {
        stdout := stdout + data;
        return;
      }
      var top := depth - 1;
      var f := Reserve(stack[top], stack[top].len + |data|);
      var grown := Frame(f.buf[..f.len] + data + f.buf[f.len + |data|..], f.len + |data|);
      assert grown.Text() == stack[top].Text() + data;
      stack := stack[top := grown];
      assert State().texts == Put(old(State()), data).texts;
    }

    method WriteStrBegin()
      requires Valid()
      modifies this
      ensures Valid() && State() == Push(old(State()))
    {
      ReserveSlots(depth + 1);
      stack := stack[depth := stack[depth].(len := 0)];
      depth := depth + 1;
      assert State().texts == Push(old(State())).texts;
    }

    /** Takes the innermost text, and resumes the one around it. */
    method Take() returns (text: bytes)
      requires Valid()
      modifies this`depth
      ensures Valid() && text == Top(old(State())) && State() == Pop(old(State()))
    {
      text := [];
      if depth > 0 {
        depth := depth - 1;
        text := stack[depth].Text();
        assert State().texts == Pop(old(State())).texts;
      }
    }

    /** Ends a writestr into a string(N). */
    method WriteStrEnd(s: EpString?, cap: nat)
      requires Valid() && (s != null ==> cap <= s.data.Length)
      modifies this`depth, s, if s == null then {} else {s.data}
      ensures Valid() && State() == Pop(old(State()))
      ensures s != null ==>
                var got := Delivered(Ep(cap), Top(old(State())));
                s.length == |got| && s.data[..] == got + old(s.data[..])[|got|..]
    {
      var text := Take();
      if s != null {
        var l := if |text| > cap then cap else |text|;
        s.length := l;
        Store(s.data, 0, text[..l]);
        assert text[..l] == Cut(text, cap);
      }
    }

    /** Ends a writestr into a fixed string, short text padded with spaces. */
    method WriteStrEndFixed(buf: array?<byte>, n: nat)
      requires Valid() && (buf != null ==> n <= buf.Length)
      modifies this`depth, buf
      ensures Valid() && State() == Pop(old(State()))
      ensures buf != null ==> buf[..] == Delivered(Fixed(n), Top(old(State()))) + old(buf[..])[n..]
    {
      hide Texts, Top, Pop, Padded;
      var text := Take();
      if buf != null {
        StoreFixed(buf, n, text);
      }
    }

    method StoreFixed(buf: array<byte>, n: nat, text: bytes)
      requires n <= buf.Length
      modifies buf
      ensures buf[..] == Padded(text, n) + old(buf[n..])
    {
      var l := if |text| > n then n else |text|;
      assert text[..l] == Cut(text, n);
      Store(buf, 0, text[..l]);
      assert buf[..l] == text[..l];
      Pad(buf, l, n);
    }

    method Pad(buf: array<byte>, from: nat, n: nat)
      requires from <= n <= buf.Length
      modifies buf
      ensures buf[..] == old(buf[..from]) + seq(n - from, _ => SPACE) + old(buf[n..])
    {
      for i := from to n
        invariant buf[..from] == old(buf[..from]) && buf[n..] == old(buf[n..])
        invariant forall k | from <= k < i :: buf[k] == SPACE
      {
        buf[i] := SPACE;
      }
    }

    /** Ends a writestr into a Turbo string: one length byte in front. */
    method WriteStrEndShort(s: array?<byte>, cap: int)
      requires Valid() && (s != null ==> ShortCap(cap) < s.Length)
      modifies this`depth, s
      ensures Valid() && State() == Pop(old(State()))
      ensures s != null ==>
                var got := Delivered(Short(cap), Top(old(State())));
                s[..] == [|got| as byte] + got + old(s[..])[1 + |got|..]
    {
      hide Texts, Top, Pop;
      var text := Take();
      if s != null {
        StoreShort(s, cap, text);
      }
    }
  }

  method StoreShort(s: array<byte>, cap: int, text: bytes)
    requires ShortCap(cap) < s.Length
    modifies s
    ensures var got := Delivered(Short(cap), text);
            s[..] == [|got| as byte] + got + old(s[..])[1 + |got|..]
  {
    var ecap := cap;
    if ecap > 255 {
      ecap := 255;
    }
    if ecap < 0 {
      ecap := 0;
    }
    var l := if |text| > ecap then ecap else |text|;
    assert text[..l] == Cut(text, ecap);
    s[0] := l;
    Store(s, 1, text[..l]);
    assert s[0] == l as byte;
  }
}
