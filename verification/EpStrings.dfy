/** Extended Pascal's string values: the blank-padded order, and substrings with
  * their errors. */
module EpStrings {
  import opened Bytes
  import opened Memory
  import opened Relations
  import Bits
  import ShortStrings

  // ---- the order ----

  /** The character at `i`, blanks going on for ever after the last. */
  function At(s: bytes, i: nat): byte { if i < |s| then s[i] else SPACE }

  function Rest(s: bytes): bytes { if s == [] then [] else s[1..] }

  /** The shorter string is filled up with blanks before comparing. */
  function Compare(a: bytes, b: bytes): (r: int)
    ensures -1 <= r <= 1
    decreases |a| + |b|
  {
    if a == [] && b == [] then 0
    else if At(a, 0) != At(b, 0) then if At(a, 0) < At(b, 0) then -1 else 1
    else Compare(Rest(a), Rest(b))
  }

  function Trim(s: bytes): (r: bytes)
    ensures r <= s && (r != [] ==> r[|r| - 1] != SPACE)
  {
    if s != [] && s[|s| - 1] == SPACE then Trim(s[..|s| - 1]) else s
  }

  lemma {:induction false} TrimKeepsChars(s: bytes, i: nat)
    ensures At(Trim(s), i) == At(s, i)
  {
    if s != [] && s[|s| - 1] == SPACE {
      TrimKeepsChars(s[..|s| - 1], i);
    }
  }

  ghost predicate SameChars(a: bytes, b: bytes) {
    forall i: nat :: At(a, i) == At(b, i)
  }

  lemma {:induction false} EqualIsSameChars(a: bytes, b: bytes)
    ensures Compare(a, b) == 0 <==> SameChars(a, b)
    decreases |a| + |b|
  {
    if a != [] || b != [] {
      EqualIsSameChars(Rest(a), Rest(b));
      assert forall i: nat :: At(Rest(a), i) == At(a, i + 1) && At(Rest(b), i) == At(b, i + 1);
      if At(a, 0) == At(b, 0) && SameChars(Rest(a), Rest(b)) {
        forall i: nat
          ensures At(a, i) == At(b, i)
        {
          if i > 0 {
            assert At(Rest(a), i - 1) == At(Rest(b), i - 1);
          }
        }
      }
      if SameChars(a, b) {
        forall i: nat
          ensures At(Rest(a), i) == At(Rest(b), i)
        {
          assert At(a, i + 1) == At(b, i + 1);
        }
      }
    }
  }

  /** A string that does not end in a blank shows its length in its characters. */
  lemma NoLonger(a: bytes, b: bytes)
    requires SameChars(a, b) && (a != [] ==> a[|a| - 1] != SPACE)
    ensures |a| <= |b|
  {
    if a != [] {
      assert At(a, |a| - 1) == At(b, |a| - 1);
    }
  }

  /** Strings that compare equal are those that trim to the same string. */
  lemma {:induction false} EqualIsTrimmedEqual(a: bytes, b: bytes)
    ensures Compare(a, b) == 0 <==> Trim(a) == Trim(b)
  {
    EqualIsSameChars(a, b);
    var (x, y) := (Trim(a), Trim(b));
    forall i: nat
      ensures At(x, i) == At(a, i) && At(y, i) == At(b, i)
    {
      TrimKeepsChars(a, i);
      TrimKeepsChars(b, i);
    }
    if SameChars(a, b) {
      assert forall i: nat :: At(x, i) == At(y, i);
      NoLonger(x, y);
      NoLonger(y, x);
      assert forall i | 0 <= i < |x| :: x[i] == At(x, i) == At(y, i) == y[i];
    }
    if x == y {
      assert forall i: nat :: At(a, i) == At(x, i) == At(b, i);
    }
  }

  lemma {:induction false} CompareSwaps(a: bytes, b: bytes)
    ensures Compare(b, a) == -Compare(a, b)
    decreases |a| + |b|
  {
    if a != [] || b != [] {
      CompareSwaps(Rest(a), Rest(b));
    }
  }

  /** A total preorder: transitive, and strict if either step is. */
  lemma {:induction false} CompareChains(a: bytes, b: bytes, c: bytes)
    requires Compare(a, b) <= 0 && Compare(b, c) <= 0
    ensures Compare(a, c) <= 0
    ensures Compare(a, b) < 0 || Compare(b, c) < 0 ==> Compare(a, c) < 0
    decreases |a| + |b| + |c|
  {
    if a != [] || b != [] || c != [] {
      if At(a, 0) == At(b, 0) == At(c, 0) {
        RestCompare(a, b);
        RestCompare(b, c);
        RestCompare(a, c);
        CompareChains(Rest(a), Rest(b), Rest(c));
      } else {
        FirstDecides(a, b);
        FirstDecides(b, c);
        FirstDecides(a, c);
      }
    }
  }

  lemma RestCompare(a: bytes, b: bytes)
    requires At(a, 0) == At(b, 0)
    ensures Compare(a, b) == Compare(Rest(a), Rest(b))
  {
  }

  lemma FirstDecides(a: bytes, b: bytes)
    ensures At(a, 0) < At(b, 0) ==> Compare(a, b) == -1
    ensures At(a, 0) > At(b, 0) ==> Compare(a, b) == 1
  {
  }

  /** On strings of one length the two families agree. */
  lemma {:induction false} AgreesWithShort(a: bytes, b: bytes)
    requires |a| == |b|
    ensures Compare(a, b) == ShortStrings.Compare(a, b)
  {
    if a != [] {
      AgreesWithShort(a[1..], b[1..]);
    }
  }

  /** Each of the six answers by the first difference; they agree under negation and
    * under swapping the operands. */
  lemma {:induction false} SixConsistent(op: Relop, a: bytes, b: bytes)
    ensures Holds(op, Compare(a, b)) <==>
            match op
            case Eq => Trim(a) == Trim(b)
            case Ne => Trim(a) != Trim(b)
            case Lt => Less(a, b)
            case Gt => Less(b, a)
            case Le => !Less(b, a)
            case Ge => !Less(a, b)
    ensures Holds(Negated(op), Compare(a, b)) == !Holds(op, Compare(a, b))
    ensures Holds(Swapped(op), Compare(b, a)) == Holds(op, Compare(a, b))
  {
    hide Compare, Less, Trim;
    CompareSwaps(a, b);
    EqualIsTrimmedEqual(a, b);
    CompareIsOrder(a, b);
    CompareIsOrder(b, a);
  }

  // ---- the order by the first difference ----

  /** The character at `k`, and a blank behind the last. */
  function Padded(s: bytes, k: nat): int { if k < |s| then s[k] else 32 }

  /** The padded strings agree before `k`, and there `a` has the smaller character. */
  ghost predicate LessAt(a: bytes, b: bytes, k: nat) {
    Padded(a, k) < Padded(b, k) && forall i: nat | i < k :: Padded(a, i) == Padded(b, i)
  }

  ghost predicate Less(a: bytes, b: bytes) {
    exists k: nat :: LessAt(a, b, k)
  }

  /** The comparison is negative exactly for strings in that order. */
  lemma {:induction false} CompareIsOrder(a: bytes, b: bytes)
    ensures Compare(a, b) < 0 <==> Less(a, b)
    decreases |a| + |b|
  {
    hide LessAt;
    if a != [] || b != [] {
      CompareIsOrder(Rest(a), Rest(b));
      forall k: nat
        ensures LessAt(a, b, k) <==> if At(a, 0) != At(b, 0) then k == 0 && At(a, 0) < At(b, 0)
                                     else k > 0 && LessAt(Rest(a), Rest(b), k - 1)
      {
        LessLater(a, b, k);
      }
      if At(a, 0) != At(b, 0) {
        assert LessAt(a, b, 0) <==> At(a, 0) < At(b, 0);
      } else if Less(Rest(a), Rest(b)) {
        var k: nat :| LessAt(Rest(a), Rest(b), k);
        assert LessAt(a, b, k + 1);
      }
    } else {
      forall k: nat ensures !LessAt(a, b, k) {
        NothingLess(k);
      }
    }
  }

  lemma NothingLess(k: nat)
    ensures !LessAt([], [], k)
  {
  }

  lemma {:induction false} LessLater(a: bytes, b: bytes, k: nat)
    ensures LessAt(a, b, k) <==> if At(a, 0) != At(b, 0) then k == 0 && At(a, 0) < At(b, 0)
                                 else k > 0 && LessAt(Rest(a), Rest(b), k - 1)
  {
    assert forall i: nat :: Padded(Rest(a), i) == Padded(a, i + 1) && Padded(Rest(b), i) == Padded(b, i + 1);
    assert Padded(a, 0) == At(a, 0) && Padded(b, 0) == At(b, 0);
    if k > 0 && At(a, 0) == At(b, 0) && LessAt(Rest(a), Rest(b), k - 1) {
      forall i: nat | i < k
        ensures Padded(a, i) == Padded(b, i)
      {
        assert i > 0 ==> Padded(Rest(a), i - 1) == Padded(Rest(b), i - 1);
      }
    }
  }

  // ---- strings in memory ----

  datatype Outcome = Done | BadSubstring(i: int, n: int, len: int) | WrongLength(len: int, n: int)
                   | TooLong(len: int, cap: int)

  lemma Inside(data: bytes, length: nat, at: nat, n: nat, k: nat)
    requires at + n <= length <= |data| && k <= n
    ensures data[..length][at..at + n][..k] == data[at..at + k]
  {
    var (x, y) := (data[..length][at..at + n][..k], data[at..at + k]);
    assert |x| == |y| && forall i | 0 <= i < k :: x[i] == data[at + i] == y[i];
  }

  /** A length in front of a fixed buffer. */
  class EpString {
    var length: int
    const data: array<byte>

    constructor (capacity: nat)
      ensures Valid() && Text() == [] && data.Length == capacity && fresh(data)
    {
      length := 0;
      data := new byte[capacity];
    }

    ghost predicate Valid()
      reads this
    {
      0 <= length <= data.Length
    }

    ghost function Text(): bytes
      reads this, data
      requires Valid()
    {
      data[..length]
    }

    /** Assignment is an error, not a truncation, when the value is too long. */
    method Assign(cap: nat, src: EpString) returns (r: Outcome)
      requires cap <= data.Length && data != src.data && src.Valid() && Valid()
      modifies this, data
      ensures r == if |old(src.Text())| > cap then TooLong(|old(src.Text())|, cap) else Done
      ensures Valid() && Text() == if r == Done then old(src.Text()) else old(Text())
    {
      if src.length > cap {
        return TooLong(src.length, cap);
      }
      var len := src.length;
      Copy(data, 0, src.data, 0, len);
      length := len;
      assert src.data[0..len] == src.data[..len];
      return Done;
    }

    /** The n characters from i on; asking past the end is an error. */
    method Substr(cap: nat, src: EpString, i: int, n: int) returns (r: Outcome)
      requires cap <= data.Length && this != src && data != src.data && src.Valid() && Valid()
      modifies this, data
      ensures r == if 0 <= n && 1 <= i && (n == 0 || i + n - 1 <= |src.Text()|) then Done
                   else BadSubstring(i, n, |src.Text()|)
      ensures Valid()
      ensures Text() == if r != Done then old(Text()) else if n == 0 then [] else Cut(src.Text()[i - 1..i - 1 + n], cap)
    {
      var ls := src.length;
      if n < 0 || i < 1 || (n > 0 && (i > ls || n > ls - i + 1)) {
        return BadSubstring(i, n, ls);
      }
      var len := Min(n, cap);
      if len > 0 {
        Copy(data, 0, src.data, i - 1, len);
        Inside(src.data[..], ls, i - 1, n, len);
        assert src.data[..][..ls] == src.Text() && src.data[..][i - 1..i - 1 + len] == src.data[i - 1..i - 1 + len];
      }
      length := len;
      return Done;
    }

    /** Replaces n characters from i on by a value of exactly that length. */
    method SubstrAssign(i: int, n: int, src: EpString) returns (r: Outcome)
      requires data != src.data && src.Valid() && Valid()
      modifies data
      ensures r == if !(1 <= i && 1 <= n && i + n - 1 <= |old(Text())|) then BadSubstring(i, n, |old(Text())|)
                   else if |src.Text()| != n then WrongLength(|src.Text()|, n)
                   else Done
      ensures Valid()
      ensures Text() == if r != Done then old(Text())
                        else old(Text())[..i - 1] + src.Text() + old(Text())[i - 1 + n..]
    {
      var ld := length;
      if n <= 0 || i < 1 || i > ld || n > ld - i + 1 {
        return BadSubstring(i, n, ld);
      }
      var ls := src.length;
      if ls != n {
        return WrongLength(ls, n);
      }
      ghost var before := Text();
      Copy(data, i - 1, src.data, 0, n);
      assert src.data[0..n] == src.Text();
      assert Text() == before[..i - 1] + src.Text() + before[i - 1 + n..];
      return Done;
    }

    method TrimFrom(cap: nat, src: EpString)
      requires cap <= data.Length && this != src && data != src.data && src.Valid() && Valid()
      modifies this, data
      ensures Valid() && Text() == Cut(Trim(src.Text()), cap)
    {
      var ls := src.length;
      while ls > 0 && src.data[ls - 1] == SPACE
        invariant 0 <= ls <= src.length && Trim(src.data[..ls]) == Trim(src.Text())
      {
        assert src.data[..ls][..ls - 1] == src.data[..ls - 1];
        ls := ls - 1;
      }
      var len := Min(ls, cap);
      Copy(data, 0, src.data, 0, len);
      length := len;
      assert src.data[0..len] == Cut(src.data[..ls], cap);
    }

    method Cmp(b: EpString) returns (r: int)
      requires Valid() && b.Valid()
      ensures r == Compare(Text(), b.Text())
    {
      var la, lb := length, b.length;
      var lm := if la > lb then la else lb;
      ghost var (x, y) := (Text(), b.Text());
      for i := 0 to lm
        invariant Compare(x, y) == Compare(Drop(x, i), Drop(y, i))
      {
        var ca := if i < la then data[i] else SPACE;
        var cb := if i < lb then b.data[i] else SPACE;
        assert At(Drop(x, i), 0) == ca && At(Drop(y, i), 0) == cb;
        if ca != cb {
          return if ca < cb then -1 else 1;
        }
        assert Rest(Drop(x, i)) == Drop(x, i + 1) && Rest(Drop(y, i)) == Drop(y, i + 1);
      }
      return 0;
    }

    /** The six comparisons answer by the first difference of the padded strings, and
      * equality by what is left without trailing blanks. */
    method Test(op: Relop, b: EpString) returns (r: bool)
      requires Valid() && b.Valid()
      ensures r <==> match op
                     case Eq => Trim(Text()) == Trim(b.Text())
                     case Ne => Trim(Text()) != Trim(b.Text())
                     case Lt => Less(Text(), b.Text())
                     case Gt => Less(b.Text(), Text())
                     case Le => !Less(b.Text(), Text())
                     case Ge => !Less(Text(), b.Text())
    {
      hide Compare, Less, Trim;
      var c := Cmp(b);
      r := Holds(op, c);
      SixConsistent(op, Text(), b.Text());
    }

    /** Assigning to s[low..high], the length computed as the compiler does it. */
    method AssignRange(low: int, high: int, src: EpString) returns (r: Outcome)
      requires data != src.data && src.Valid() && Valid()
      requires Bits.InRange(true, 64, low) && Bits.InRange(true, 64, high) && Bits.InRange(true, 64, length)
      modifies data
      ensures r == Done <==> 1 <= low <= high <= |old(Text())| && |src.Text()| == high - low + 1
      ensures Valid()
      ensures Text() == if r != Done then old(Text())
                        else old(Text())[..low - 1] + src.Text() + old(Text())[high..]
    {
      var n := SpanLength(low, high);
      SpanExact(low, high, |Text()|);
      r := SubstrAssign(low, n, src);
    }
  }

  function Drop(s: bytes, i: nat): bytes { if i < |s| then s[i..] else [] }

  /** Addition and subtraction at 64 bits. */
  function Int64(x: int): int { Bits.Signed(64, Bits.Wrap(64, x)) }

  function SpanLength(low: int, high: int): int { Int64(Int64(high - low) + 1) }

  lemma {:induction false} OnceAround(x: int)
    requires -Bits.Pow2(64) <= x < Bits.Pow2(64)
    ensures var (p, h) := (Bits.Pow2(64), Bits.Pow2(63));
            && p == 2 * h
            && Int64(x) == if x >= h then x - p else if x < -h then x + p else x
  {
    var (p, h) := (Bits.Pow2(64), Bits.Pow2(63));
    assert p == 2 * h;
    hide Bits.Pow2;
    if x < 0 {
      Bits.ModUnique(x, -1, x + p, p);
    } else {
      Bits.ModUnique(x, 0, x, p);
    }
  }

  lemma TwiceTop()
    ensures Bits.Pow2(64) == 2 * Bits.Pow2(63)
  {
  }

  /** The wrap never makes a bad range look like a good one. */
  lemma {:induction false} SpanExact(low: int, high: int, len: nat)
    requires Bits.InRange(true, 64, low) && Bits.InRange(true, 64, high) && Bits.InRange(true, 64, len)
    ensures var n := SpanLength(low, high);
            && (1 <= low && 1 <= n && low + n - 1 <= len <==> 1 <= low <= high <= len)
            && (1 <= low <= high <= len ==> n == high - low + 1)
  {
    hide Bits.Pow2, Int64;
    TwiceTop();
    OnceAround(high - low);
    OnceAround(Int64(high - low) + 1);
  }
}
