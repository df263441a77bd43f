/** The Turbo string routines on memory: a length byte with the characters after
  * it, changed in place and never past the capacity. */
module ShortStringOps {
  import opened Bytes
  import opened Memory
  import opened ShortStrings
  import opened Relations

  ghost predicate IsStr(s: array<byte>)
    reads s
  {
    s.Length > 0 && (s[0] as int) < s.Length
  }

  /** The characters of a string. */
  ghost function Str(s: array<byte>): bytes
    reads s
    requires IsStr(s)
  {
    s[1..1 + s[0] as int]
  }

  /** Memory with the string `text` put at its start. */
  ghost function With(memory: bytes, text: bytes): bytes
    requires |text| < 256 && |text| < |memory|
  {
    [|text| as byte] + text + memory[1 + |text|..]
  }

  /** `s` has become the string `text`, and no byte behind its characters changed. */
  twostate predicate Becomes(s: array<byte>, text: bytes)
    reads s
  {
    |text| < 256 && |text| < s.Length && s[..] == With(old(s[..]), text)
  }

  lemma Window(s: array<byte>, i: nat, n: nat)
    requires IsStr(s) && i + n <= s[0] as int
    ensures s[1 + i..1 + i + n] == Str(s)[i..i + n]
  {
    var (x, y) := (s[1 + i..1 + i + n], Str(s)[i..i + n]);
    assert |x| == |y| && forall k | 0 <= k < n :: x[k] == s[1 + i + k] == y[k];
  }

  method StoreLength(s: array<byte>, n: byte)
    requires s.Length > 0
    modifies s
    ensures s[..] == old(s[..])[0 := n]
  {
    s[0] := n;
  }

  /** The text after its length, or before it, comes to the same memory. */
  lemma TextThenLength(memory: bytes, text: bytes)
    requires |text| < 256 && |text| < |memory|
    ensures (memory[..1] + text + memory[1 + |text|..])[0 := |text| as byte] == With(memory, text)
  {
  }

  lemma LengthThenText(memory: bytes, text: bytes)
    requires |text| < 256 && |text| < |memory|
    ensures var m := memory[0 := |text| as byte]; m[..1] + text + m[1 + |text|..] == With(memory, text)
  {
  }

  method Assign(dst: array<byte>, cap: nat, src: array<byte>)
    requires dst != src && Min(cap, 255) < dst.Length && IsStr(src)
    modifies dst
    ensures Becomes(dst, Cut(Str(src), Min(cap, 255)))
  {
    hide With;
    var ecap := EffCap(cap);
    var len := src[0] as int;
    if len > ecap {
      len := ecap;
    }
    Window(src, 0, len);
    assert Str(src)[0..len] == Cut(Str(src), ecap);
    LengthThenText(dst[..], src[1..1 + len]);
    StoreLength(dst, len);
    Copy(dst, 1, src, 1, len);
  }

  method FromBytes(dst: array<byte>, cap: nat, text: bytes)
    requires Min(cap, 255) < dst.Length
    modifies dst
    ensures Becomes(dst, Cut(text, Min(cap, 255)))
  {
    hide With;
    var len := Min(|text|, EffCap(cap));
    assert text[..len] == Cut(text, EffCap(cap));
    LengthThenText(dst[..], text[..len]);
    StoreLength(dst, len);
    Store(dst, 1, text[..len]);
  }

  method FromChar(dst: array<byte>, cap: nat, c: byte)
    requires Min(cap, 255) < dst.Length
    modifies dst
    ensures Becomes(dst, Cut([c], Min(cap, 255)))
  {
    if EffCap(cap) < 1 {
      dst[0] := 0;
    } else {
      dst[0] := 1;
      dst[1] := c;
    }
  }

  /** Two copies side by side are one. */
  lemma Follows(before: bytes, x: bytes, y: bytes)
    requires 1 + |x| + |y| <= |before|
    ensures var half := before[..1] + x + before[1 + |x|..];
            half[..1 + |x|] + y + half[1 + |x| + |y|..] == before[..1] + (x + y) + before[1 + |x + y|..]
  {
    var half := before[..1] + x + before[1 + |x|..];
    assert half[..1 + |x|] == before[..1] + x;
    assert half[1 + |x| + |y|..] == before[1 + |x| + |y|..];
  }

  lemma ConcatIs(a: bytes, b: bytes, cap: nat, la: int, lb: int)
    requires la == Min(|a|, Min(|a| + |b|, cap)) && lb == Min(|b|, Min(|a| + |b|, cap) - la)
    ensures 0 <= la <= |a| && 0 <= lb <= |b| && la + lb <= cap && Cut(a + b, cap) == a[0..la] + b[0..lb]
  {
  }

  method Concat(dst: array<byte>, cap: nat, a: array<byte>, b: array<byte>)
    requires dst != a && dst != b && Min(cap, 255) < dst.Length && IsStr(a) && IsStr(b)
    modifies dst
    ensures Becomes(dst, Cut(Str(a) + Str(b), Min(cap, 255)))
  {
    hide With, Cut, EffCap;
    EffCapSmall(cap);
    var ecap := EffCap(cap);
    var la, lb := a[0] as int, b[0] as int;
    var ld := Min(la + lb, ecap);
    var la2 := Min(la, ld);
    var lb2 := Min(lb, ld - la2);
    ConcatIs(Str(a), Str(b), ecap, la2, lb2);
    Window(a, 0, la2);
    Window(b, 0, lb2);
    ghost var (x, y) := (a[1..1 + la2], b[1..1 + lb2]);
    Follows(dst[..], x, y);
    TextThenLength(dst[..], x + y);
    AppendCopies(dst, a, la2, b, lb2);
    StoreLength(dst, la2 + lb2);
  }

  lemma EffCapSmall(cap: nat)
    ensures EffCap(cap) == Min(cap, 255) <= cap && EffCap(cap) < 256
  {
  }

  method AppendCopies(dst: array<byte>, a: array<byte>, la: nat, b: array<byte>, lb: nat)
    requires dst != a && dst != b && 1 + la <= a.Length && 1 + lb <= b.Length && 1 + la + lb <= dst.Length
    modifies dst
    ensures var (before, x, y) := (old(dst[..]), a[1..1 + la], b[1..1 + lb]);
            dst[..] == before[..1] + (x + y) + before[1 + |x + y|..]
  {
    ghost var before := dst[..];
    Copy(dst, 1, a, 1, la);
    ghost var between := dst[..];
    Copy(dst, 1 + la, b, 1, lb);
    Followed(before, a[1..1 + la], b[1..1 + lb], between, dst[..]);
  }

  /** Two texts stored one behind the other are their concatenation stored. */
  lemma Followed(before: bytes, x: bytes, y: bytes, between: bytes, after: bytes)
    requires 1 + |x| + |y| <= |before|
    requires between == before[..1] + x + before[1 + |x|..]
    requires after == between[..1 + |x|] + y + between[1 + |x| + |y|..]
    ensures after == before[..1] + (x + y) + before[1 + |x + y|..]
  {
    Follows(before, x, y);
  }

  method ConcatChar(dst: array<byte>, cap: nat, a: array<byte>, c: byte)
    requires dst != a && Min(cap, 255) < dst.Length && IsStr(a)
    modifies dst
    ensures Becomes(dst, Cut(Str(a) + [c], Min(cap, 255)))
  {
    hide With, Cut, EffCap, Str;
    EffCapSmall(cap);
    StrIs(a);
    var ecap := EffCap(cap);
    var la := a[0] as int;
    var ld := Min(la + 1, ecap);
    var la2 := Min(la, ld);
    ghost var y := if la2 < ld then [c] else [];
    ConcatIs(Str(a), [c], ecap, la2, ld - la2);
    assert [c][0..ld - la2] == y;
    Window(a, 0, la2);
    TextThenLength(dst[..], a[1..1 + la2] + y);
    AppendChar(dst, a, la2, c, la2 < ld);
    StoreLength(dst, la2 + if la2 < ld then 1 else 0);
  }

  method AppendChar(dst: array<byte>, a: array<byte>, la: nat, c: byte, room: bool)
    requires dst != a && 1 + la <= a.Length && 1 + la + (if room then 1 else 0) <= dst.Length
    modifies dst
    ensures var (before, text) := (old(dst[..]), a[1..1 + la] + if room then [c] else []);
            dst[..] == before[..1] + text + before[1 + |text|..]
  {
    ghost var before := dst[..];
    Copy(dst, 1, a, 1, la);
    ghost var between := dst[..];
    if room {
      Store(dst, 1 + la, [c]);
    }
    Followed(before, a[1..1 + la], if room then [c] else [], between, dst[..]);
  }

  /** Copy's count after its clamps. */
  lemma CopyIs(s: bytes, index: int, count: int, ecap: nat, idx: int, cnt: int)
    requires idx == if index < 1 then 1 else index
    requires cnt == Min(Min(if count < 0 then 0 else count, if idx <= |s| then |s| - idx + 1 else 0), ecap)
    ensures 0 <= cnt <= ecap && (cnt > 0 ==> idx - 1 + cnt <= |s|)
    ensures Cut(CopyOf(s, index, count), ecap) == if cnt > 0 then s[idx - 1..idx - 1 + cnt] else []
  {
    if idx <= |s| && count > 0 {
      var e := Min(idx - 1 + count, |s|);
      assert s[idx - 1..e][..cnt] == s[idx - 1..idx - 1 + cnt];
    }
  }

  method CopySub(dst: array<byte>, cap: nat, src: array<byte>, index: int, count: int)
    requires dst != src && Min(cap, 255) < dst.Length && IsStr(src)
    modifies dst
    ensures Becomes(dst, Cut(CopyOf(Str(src), index, count), Min(cap, 255)))
  {
    hide CopyOf, Cut, With, EffCap;
    EffCapSmall(cap);
    var ecap := EffCap(cap);
    var srcLen := src[0] as int;
    var idx := index;
    if idx < 1 {
      idx := 1;
    }
    var cnt := count;
    if cnt < 0 {
      cnt := 0;
    }
    var avail := 0;
    if idx <= srcLen {
      avail := srcLen - idx + 1;
    }
    if cnt > avail {
      cnt := avail;
    }
    if cnt > ecap {
      cnt := ecap;
    }
    CopyIs(Str(src), index, count, ecap, idx, cnt);
    if cnt > 0 {
      Window(src, idx - 1, cnt);
      TextThenLength(dst[..], src[idx..idx + cnt]);
      Copy(dst, 1, src, idx, cnt);
    } else {
      TextThenLength(dst[..], []);
      assert dst[..] == dst[..][..1] + [] + dst[..][1..];
    }
    StoreLength(dst, cnt);
  }

  method Pos(pat: array<byte>, s: array<byte>) returns (r: int)
    requires IsStr(pat) && IsStr(s)
    ensures IsPos(Str(pat), Str(s), r)
  {
    var plen, slen := pat[0] as int, s[0] as int;
    if plen == 0 || plen > slen {
      return 0;
    }
    for i := 0 to slen - plen + 1
      invariant forall j | j < i :: !MatchAt(Str(pat), Str(s), j)
    {
      Window(s, i, plen);
      if s[1 + i..1 + i + plen] == pat[1..1 + plen] {
        assert MatchAt(Str(pat), Str(s), i);
        return i + 1;
      }
    }
    return 0;
  }

  lemma GapCloses(memory: bytes, text: bytes, index: nat, cnt: nat)
    requires 1 <= index && 1 <= cnt && index - 1 + cnt <= |text| < 256 && |text| < |memory|
    requires memory[1..1 + |text|] == text
    ensures var left := text[..index - 1] + text[index - 1 + cnt..];
            var moved := memory[..index] + memory[index + cnt..1 + |text|] + memory[1 + |left|..];
            |left| == |text| - cnt && moved[0 := |left| as byte] == With(memory, left)
  {
    assert text[..index - 1] == memory[1..index];
    assert text[index - 1 + cnt..] == memory[index + cnt..1 + |text|];
    assert memory[..index] == [memory[0]] + memory[1..index];
  }

  lemma StrIs(s: array<byte>)
    requires IsStr(s)
    ensures |Str(s)| == s[0] as int && s[..][1..1 + |Str(s)|] == Str(s)
  {
  }

  method MoveTail(s: array<byte>, at: nat, from: nat, n: nat)
    requires at <= from && from + n <= s.Length
    modifies s
    ensures s[..] == old(s[..])[..at] + old(s[..])[from..from + n] + old(s[..])[at + n..]
  {
    if n > 0 {
      Move(s, at, s, from, n);
    }
  }

  /** Moves the tail down over the characters deleted. */
  method CloseGap(s: array<byte>, index: nat, cnt: nat)
    requires IsStr(s) && 1 <= index && 1 <= cnt && index - 1 + cnt <= s[0] as int
    modifies s
    ensures Becomes(s, old(Str(s))[..index - 1] + old(Str(s))[index - 1 + cnt..])
  {
    hide With, Str;
    var len := s[0] as int;
    var tailLen := len - (index - 1 + cnt);
    StrIs(s);
    ghost var (memory, text) := (s[..], Str(s));
    ghost var left := text[..index - 1] + text[index - 1 + cnt..];
    GapCloses(memory, text, index, cnt);
    MoveTail(s, index, index + cnt, tailLen);
    assert s[..] == memory[..index] + memory[index + cnt..1 + |text|] + memory[1 + |left|..];
    StoreLength(s, len - cnt);
  }

  lemma AlreadyThere(s: array<byte>)
    requires IsStr(s)
    ensures s[..] == With(s[..], Str(s))
  {
  }

  lemma NothingDeleted(s: bytes, index: int, count: int)
    requires index < 1 || index > |s| || count <= 0
    ensures DeleteOf(s, index, count) == s
  {
  }

  lemma DeleteIs(s: bytes, index: int, count: int, cnt: int)
    requires 1 <= index <= |s| && 1 <= cnt == Min(count, |s| - index + 1)
    ensures DeleteOf(s, index, count) == s[..index - 1] + s[index - 1 + cnt..]
  {
  }

  method Delete(s: array<byte>, index: int, count: int)
    requires IsStr(s)
    modifies s
    ensures Becomes(s, DeleteOf(old(Str(s)), index, count))
  {
    var len := s[0] as int;
    hide With, DeleteOf;
    AlreadyThere(s);
    if index < 1 || index > len {
      NothingDeleted(Str(s), index, count);
      return;
    }
    var cnt := count;
    if cnt < 0 {
      cnt := 0;
    }
    var avail := len - index + 1;
    if cnt > avail {
      cnt := avail;
    }
    if cnt == 0 {
      NothingDeleted(Str(s), index, count);
      return;
    }
    DeleteIs(Str(s), index, count, cnt);
    CloseGap(s, index, cnt);
  }

  /** What one of Insert's loops adds to the scratch buffer. */
  method Fill(buf: array<byte>, pos: nat, cap: nat, src: array<byte>, from: nat, to: nat) returns (end: nat)
    requires buf != src && pos <= cap <= buf.Length && from <= to <= src.Length
    modifies buf
    ensures end <= cap && buf[..end] == Cut(old(buf[..pos]) + src[from..to], cap)
  {
    end := pos;
    var i := from;
    while i < to && end < cap
      invariant from <= i <= to && end == pos + (i - from) <= cap
      invariant buf[..pos] == old(buf[..pos]) && forall k | pos <= k < end :: buf[k] == src[from + k - pos]
    {
      buf[end] := src[i];
      end := end + 1;
      i := i + 1;
    }
    assert buf[..end] == old(buf[..pos]) + src[from..i];
  }

  /** Insert's three loops over one scratch buffer. */
  method FillAll(buf: array<byte>, cap: nat, s: array<byte>, at: nat, len: nat, src: array<byte>) returns (pos: nat)
    requires buf != s && buf != src && cap <= buf.Length && at <= len < s.Length && IsStr(src)
    modifies buf
    ensures pos <= cap
    ensures buf[..pos] == Cut(Cut(Cut(s[1..1 + at], cap) + Str(src), cap) + s[1 + at..1 + len], cap)
  {
    hide Cut;
    pos := Fill(buf, 0, cap, s, 1, 1 + at);
    assert [] + s[1..1 + at] == s[1..1 + at];
    pos := Fill(buf, pos, cap, src, 1, 1 + src[0] as int);
    pos := Fill(buf, pos, cap, s, 1 + at, 1 + len);
  }

  lemma InsertIs(t: bytes, src: bytes, index: int, cap: nat, i: nat)
    requires i == InsertAt(t, index)
    ensures Cut(Cut(Cut(t[0..i], cap) + src, cap) + t[i..|t|], cap) == Cut(InsertOf(t, src, index), cap)
  {
    assert t[0..i] == t[..i] && t[i..|t|] == t[i..];
    CutsJoin(t[..i], src, cap);
    CutsJoin(t[..i] + src, t[i..], cap);
  }

  lemma StrSlices(s: array<byte>, ecap: nat, len: int, at: int)
    requires IsStr(s) && len == Min(s[0] as int, ecap) && 0 <= at <= len
    ensures var t := Cut(Str(s), ecap);
            |t| == len && t[0..at] == s[1..1 + at] && t[at..|t|] == s[1 + at..1 + len]
  {
    Window(s, 0, at);
    Window(s, at, len - at);
    hide Str;
    var t := Cut(Str(s), ecap);
    assert |t| == len && t == Str(s)[..len];
    assert t[0..at] == Str(s)[0..at] && t[at..len] == Str(s)[at..len];
  }

  /** What the three loops put together is the Insert wanted. */
  lemma InsertPlan(s: array<byte>, ecap: nat, len: int, at: int, src: bytes, index: int)
    requires IsStr(s) && len == Min(s[0] as int, ecap)
    requires at == (if index < 1 then 1 else if index > len + 1 then len + 1 else index) - 1
    ensures 0 <= at <= len
    ensures Cut(Cut(Cut(s[1..1 + at], ecap) + src, ecap) + s[1 + at..1 + len], ecap)
            == Cut(InsertOf(Cut(Str(s), ecap), src, index), ecap)
  {
    hide InsertOf, Cut, Str;
    StrSlices(s, ecap, len, at);
    InsertIs(Cut(Str(s), ecap), src, index, ecap, at);
  }

  /** The source and the target may be the same string. */
  method Insert(s: array<byte>, cap: nat, src: array<byte>, index: int)
    requires IsStr(s) && IsStr(src) && Min(cap, 255) < s.Length
    modifies s
    ensures Becomes(s, InsertCut(old(Str(s)), old(Str(src)), index, cap))
  {
    EffCapSmall(cap);
    var ecap := EffCap(cap);
    var len := s[0] as int;
    if len > ecap {
      len := ecap;
    }
    var idx := index;
    if idx < 1 {
      idx := 1;
    }
    if idx > len + 1 {
      idx := len + 1;
    }
    var idx0 := idx - 1;
    hide InsertOf, With, EffCap, Cut, InsertAt;
    InsertPlan(s, ecap, len, idx0, Str(src), index);
    var buf := new byte[MAX_LEN];
    var pos := FillAll(buf, ecap, s, idx0, len, src);
    PutBack(s, buf, pos);
  }

  method PutBack(s: array<byte>, buf: array<byte>, n: nat)
    requires buf != s && n <= buf.Length && n < 256 && n < s.Length
    modifies s
    ensures Becomes(s, buf[..n])
  {
    TextThenLength(s[..], buf[0..n]);
    assert buf[0..n] == buf[..n];
    Copy(s, 1, buf, 0, n);
    StoreLength(s, n);
  }

  method SetLength(s: array<byte>, cap: nat, newLen: int)
    requires Min(cap, 255) < s.Length
    modifies s
    ensures IsStr(s) && s[0] as int == if newLen < 0 then 0 else Min(newLen, Min(cap, 255))
    ensures s[1..] == old(s[1..])
  {
    var n := newLen;
    if n < 0 {
      n := 0;
    }
    if n > EffCap(cap) {
      n := EffCap(cap);
    }
    s[0] := n;
  }

  method OfChar(dst: array<byte>, cap: nat, c: byte, count: int)
    requires Min(cap, 255) < dst.Length
    modifies dst
    ensures Becomes(dst, Cut(seq(if count < 0 then 0 else count, _ => c), Min(cap, 255)))
  {
    var n := count;
    if n < 0 {
      n := 0;
    }
    if n > EffCap(cap) {
      n := EffCap(cap);
    }
    hide With;
    var fill := seq(n, _ => c);
    assert fill == Cut(seq(if count < 0 then 0 else count, _ => c), EffCap(cap));
    TextThenLength(dst[..], fill);
    Store(dst, 1, fill);
    StoreLength(dst, n);
  }

  lemma {:induction false} CompareTails(a: bytes, b: bytes, i: nat)
    requires i <= |a| && i <= |b| && a[..i] == b[..i]
    ensures Compare(a, b) == Compare(a[i..], b[i..])
  {
    if i > 0 {
      assert a[0] == a[..i][0] == b[..i][0] == b[0];
      assert a[1..][..i - 1] == a[..i][1..] && b[1..][..i - 1] == b[..i][1..];
      CompareTails(a[1..], b[1..], i - 1);
      assert a[1..][i - 1..] == a[i..] && b[1..][i - 1..] == b[i..];
    } else {
      assert a[0..] == a && b[0..] == b;
    }
  }

  method Cmp(a: array<byte>, b: array<byte>) returns (r: int)
    requires IsStr(a) && IsStr(b)
    ensures r == Compare(Str(a), Str(b))
  {
    var la, lb := a[0] as int, b[0] as int;
    var lm := Min(la, lb);
    ghost var (x, y) := (Str(a), Str(b));
    for i := 0 to lm
      invariant x[..i] == y[..i]
    {
      CompareTails(x, y, i);
      assert a[1 + i] == x[i] && b[1 + i] == y[i];
      if a[1 + i] != b[1 + i] {
        return if a[1 + i] < b[1 + i] then -1 else 1;
      }
    }
    CompareTails(x, y, lm);
    return if la != lb then if la < lb then -1 else 1 else 0;
  }

  /** The six comparisons answer by the first difference: a character, or the end of
    * one of the two. */
  method Test(op: Relop, a: array<byte>, b: array<byte>) returns (r: bool)
    requires IsStr(a) && IsStr(b)
    ensures r <==> match op
                   case Eq => Str(a) == Str(b)
                   case Ne => Str(a) != Str(b)
                   case Lt => Less(Str(a), Str(b))
                   case Gt => Less(Str(b), Str(a))
                   case Le => !Less(Str(b), Str(a))
                   case Ge => !Less(Str(a), Str(b))
  {
    hide Compare, Less;
    var c := Cmp(a, b);
    r := Holds(op, c);
    SixConsistent(op, Str(a), Str(b));
  }

  /** Each of the six answers by the first difference; they agree under negation and
    * under swapping the operands. */
  lemma {:induction false} SixConsistent(op: Relop, a: bytes, b: bytes)
    ensures Holds(op, Compare(a, b)) <==>
            match op
            case Eq => a == b
            case Ne => a != b
            case Lt => Less(a, b)
            case Gt => Less(b, a)
            case Le => !Less(b, a)
            case Ge => !Less(a, b)
    ensures Holds(Negated(op), Compare(a, b)) == !Holds(op, Compare(a, b))
    ensures Holds(Swapped(op), Compare(b, a)) == Holds(op, Compare(a, b))
  {
    hide Compare, Less;
    CompareSwaps(a, b);
    CompareIsEquality(a, b);
    CompareIsOrder(a, b);
    CompareIsOrder(b, a);
  }
}
