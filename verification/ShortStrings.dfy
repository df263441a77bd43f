/** Turbo's string values: what each operation means on character sequences, and
  * the order they are compared in. */
module ShortStrings {
  import Bits
  import opened Bytes
  import opened Memory

  const MAX_LEN := 255

  /** No string is longer than its length byte can say. */
  function EffCap(cap: nat): nat { Min(cap, MAX_LEN) }

  // ---- operations ----

  /** Copy clamps: an index below 1 counts as 1, and the count to what there is. */
  function CopyOf(s: bytes, index: int, count: int): bytes {
    var idx := if index < 1 then 1 else index;
    if count <= 0 || idx > |s| then [] else s[idx - 1..Min(idx - 1 + count, |s|)]
  }

  /** Delete does nothing at an index outside the string. */
  function DeleteOf(s: bytes, index: int, count: int): bytes {
    if count <= 0 || index < 1 || index > |s| then s
    else s[..index - 1] + s[Min(index - 1 + count, |s|)..]
  }

  function InsertAt(s: bytes, index: int): (i: nat)
    ensures i <= |s|
  {
    if index < 1 then 0 else if index > |s| + 1 then |s| else index - 1
  }

  /** Insert clamps its index into the string or just past it. */
  function InsertOf(s: bytes, src: bytes, index: int): bytes {
    var i := InsertAt(s, index);
    s[..i] + src + s[i..]
  }

  predicate MatchAt(pat: bytes, s: bytes, i: int) {
    0 <= i <= |s| - |pat| && s[i..i + |pat|] == pat
  }

  /** The first match counted from 1; no match, and no pattern, is 0. */
  ghost predicate IsPos(pat: bytes, s: bytes, r: int) {
    && (r == 0 <==> pat == [] || forall i :: !MatchAt(pat, s, i))
    && (r != 0 ==> MatchAt(pat, s, r - 1) && forall i | i < r - 1 :: !MatchAt(pat, s, i))
  }

  /** Insert as the string of that capacity receives it: what does not fit is lost
    * behind. */
  function InsertCut(s: bytes, src: bytes, index: int, cap: nat): (r: bytes)
    ensures |r| <= EffCap(cap)
  {
    Cut(InsertOf(Cut(s, EffCap(cap)), src, index), EffCap(cap))
  }

  // ---- how they undo each other ----

  /** `s` is `unit` written over and over, the last time perhaps not to its end. */
  predicate Repeats(s: bytes, unit: bytes)
    requires unit != []
  {
    forall i | 0 <= i < |s| :: s[i] == unit[i % |unit|]
  }

  /** Going one unit further back changes nothing. */
  lemma {:induction false} RepeatsAt(s: bytes, unit: bytes, i: nat)
    requires unit != [] && i < |s|
    requires forall k | 0 <= k < |s| :: s[k] == (unit + s)[k]
    ensures s[i] == unit[i % |unit|]
  {
    assert s[i] == (unit + s)[i];
    if i >= |unit| {
      RepeatsAt(s, unit, i - |unit|);
      Bits.ModShift(i, -1, |unit|);
    } else {
      Bits.ModUnique(i, 0, i, |unit|);
    }
  }

  /** A full string that gets `unit` pushed in at its front stays the same exactly
    * when it repeats `unit`. */
  lemma {:induction false} PushedIn(s: bytes, unit: bytes)
    requires unit != []
    ensures Cut(unit + s, |s|) == s <==> Repeats(s, unit)
  {
    var t := unit + s;
    assert Cut(t, |s|) == t[..|s|];
    if t[..|s|] == s {
      forall i | 0 <= i < |s|
        ensures s[i] == unit[i % |unit|]
      {
        assert forall k | 0 <= k < |s| :: s[k] == t[..|s|][k] == t[k];
        RepeatsAt(s, unit, i);
      }
    }
    if Repeats(s, unit) {
      forall i | 0 <= i < |s|
        ensures t[i] == s[i]
      {
        if i < |unit| {
          Bits.ModUnique(i, 0, i, |unit|);
        } else {
          Bits.ModShift(i, -1, |unit|);
        }
      }
      assert t[..|s|] == s;
    }
  }

  /** The places where a later Delete finds all of `src` and nothing else. */
  predicate TakenBack(s: bytes, src: bytes, index: int, ecap: nat) {
    || src == []
    || (1 <= index <= |s| && |s| + |src| <= ecap)
    || index == |s| + 1
    || (index > |s| + 1 && |s| == ecap)
    || (index < 1 && |s| == ecap && Repeats(s, src))
  }

  lemma DeleteInside(s: bytes, src: bytes, index: int, ecap: nat)
    requires |s| <= ecap && src != [] && 1 <= index <= |s|
    ensures DeleteOf(Cut(InsertOf(s, src, index), ecap), index, |src|) == s <==> |s| + |src| <= ecap
  {
    var t := InsertOf(s, src, index);
    assert |t| == |s| + |src|;
    if |s| + |src| <= ecap {
      assert t[..index - 1] == s[..index - 1] && t[index - 1 + |src|..] == s[index - 1..];
      assert s[..index - 1] + s[index - 1..] == s;
    } else {
      var u := Cut(t, ecap);
      assert |u| == ecap;
      assert |DeleteOf(u, index, |src|)| < |s|;
    }
  }

  lemma DeleteBehind(s: bytes, src: bytes, index: int, ecap: nat)
    requires |s| <= ecap && src != [] && index > |s|
    ensures DeleteOf(Cut(InsertOf(s, src, index), ecap), index, |src|) == s <==> index == |s| + 1 || |s| == ecap
  {
    var t := InsertOf(s, src, index);
    assert s[..|s|] == s && s[|s|..] == [] && t == s + src;
    var u := Cut(t, ecap);
    assert u[..|s|] == s;
    if index > |u| {
      assert DeleteOf(u, index, |src|) == u;
      assert |s| == ecap || |u| > |s|;
    } else if index == |s| + 1 {
      assert DeleteOf(u, index, |src|) == s;
    } else {
      assert |DeleteOf(u, index, |src|)| >= index - 1 > |s|;
    }
  }

  lemma DeleteBefore(s: bytes, src: bytes, index: int, ecap: nat)
    requires |s| <= ecap && src != [] && index < 1
    ensures DeleteOf(Cut(InsertOf(s, src, index), ecap), index, |src|) == s <==> |s| == ecap && Repeats(s, src)
  {
    assert s[..0] == [] && s[0..] == s && InsertOf(s, src, index) == src + s;
    PushedIn(s, src);
    if |s| < ecap {
      assert |Cut(src + s, ecap)| > |s|;
    }
  }

  /** Delete takes back an Insert exactly in these cases: there was nothing to
    * insert; the index was a place in the string and all of both fitted; it was the
    * place behind the last character; or Delete does nothing at that index and the
    * Insert changed nothing either, as the string was full. */
  lemma DeleteUndoesInsert(s: bytes, src: bytes, index: int, cap: nat)
    ensures DeleteOf(InsertCut(s, src, index, cap), index, |src|) == s
            <==> |s| <= EffCap(cap) && TakenBack(s, src, index, EffCap(cap))
  {
    hide Repeats, DeleteOf, InsertOf, EffCap;
    var e := EffCap(cap);
    DeleteShrinks(InsertCut(s, src, index, cap), index, |src|);
    if |s| <= e {
      if src == [] {
        NothingInserted(s, index);
        NothingTaken(s, index);
      } else if index < 1 {
        DeleteBefore(s, src, index, e);
      } else if index > |s| {
        DeleteBehind(s, src, index, e);
      } else {
        DeleteInside(s, src, index, e);
      }
    }
  }

  lemma DeleteShrinks(s: bytes, index: int, count: int)
    ensures |DeleteOf(s, index, count)| <= |s|
  {
  }

  lemma NothingInserted(s: bytes, index: int)
    ensures InsertOf(s, [], index) == s
  {
    var i := InsertAt(s, index);
    assert s[..i] + [] + s[i..] == s;
  }

  lemma NothingTaken(s: bytes, index: int)
    ensures DeleteOf(s, index, 0) == s
  {
  }

  /** A full string loses its end to what is inserted: "xab" is all that three places
    * hold of "x" before "abc". */
  lemma FullStringLoses()
    ensures InsertCut([97, 98, 99], [120], 1, 3) == [120, 97, 98]
    ensures DeleteOf([120, 97, 98], 1, 1) == [97, 98]
    ensures DeleteOf(InsertCut([97, 98, 99], [120], 10, 3), 10, 1) == [97, 98, 99]
  {
    var s: bytes := [97, 98, 99];
    var x: bytes := [120];
    assert InsertOf(s, x, 1) == [120, 97, 98, 99];
    assert InsertOf(s, x, 10) == [97, 98, 99, 120];
  }

  /** Insert puts back what Delete took exactly when Copy took it at a place Delete
    * knew, or took nothing, or the string was full of what Copy took. */
  lemma InsertUndoesDelete(s: bytes, index: int, count: int, cap: nat)
    ensures var c := CopyOf(s, index, count);
            InsertCut(DeleteOf(s, index, count), c, index, cap) == s
            <==> |s| <= EffCap(cap) && (index >= 1 || c == [] || (|s| == EffCap(cap) && Repeats(s, c)))
  {
    hide Repeats, EffCap;
    var (d, c) := (DeleteOf(s, index, count), CopyOf(s, index, count));
    var e := EffCap(cap);
    if |s| <= e {
      if c == [] {
        assert d == s;
        NothingInserted(s, index);
      } else if index >= 1 {
        PutBackInside(s, index, count);
      } else {
        assert d == s && s[..0] == [] && s[0..] == s && InsertOf(s, c, index) == c + s;
        PushedIn(s, c);
        assert |s| < e ==> |Cut(c + s, e)| > |s|;
      }
    }
  }

  lemma PutBackInside(s: bytes, index: int, count: int)
    requires CopyOf(s, index, count) != [] && index >= 1
    ensures InsertOf(DeleteOf(s, index, count), CopyOf(s, index, count), index) == s
    ensures |DeleteOf(s, index, count)| <= |s|
  {
    var (d, c) := (DeleteOf(s, index, count), CopyOf(s, index, count));
    assert index <= |s| && count > 0;
    var e := Min(index - 1 + count, |s|);
    assert d == s[..index - 1] + s[e..] && c == s[index - 1..e];
    assert InsertAt(d, index) == index - 1;
    assert d[..index - 1] == s[..index - 1] && d[index - 1..] == s[e..];
    assert s[..index - 1] + s[index - 1..e] + s[e..] == s;
  }

  /** At index 0 Delete takes nothing and Copy takes the first character, which then
    * comes twice, except in a string full of it. */
  lemma IndexZeroDoubles()
    ensures InsertCut(DeleteOf([97, 98], 0, 1), CopyOf([97, 98], 0, 1), 0, 3) == [97, 97, 98]
    ensures InsertCut(DeleteOf([97, 97, 97], 0, 1), CopyOf([97, 97, 97], 0, 1), 0, 3) == [97, 97, 97]
  {
    var s: bytes := [97, 98];
    var t: bytes := [97, 97, 97];
    assert InsertOf(s, [97], 0) == [97, 97, 98];
    assert InsertOf(t, [97], 0) == [97, 97, 97, 97];
  }

  /** Copy at the position Pos found is the pattern. */
  lemma CopyAtPos(pat: bytes, s: bytes, r: int)
    requires IsPos(pat, s, r) && r != 0
    ensures CopyOf(s, r, |pat|) == pat
  {
    assert MatchAt(pat, s, r - 1);
  }

  lemma PosUnique(pat: bytes, s: bytes, r: int, t: int)
    requires IsPos(pat, s, r) && IsPos(pat, s, t)
    ensures r == t
  {
    assert r != 0 ==> MatchAt(pat, s, r - 1);
    assert t != 0 ==> MatchAt(pat, s, t - 1);
  }

  /** A text inserted stands at its place exactly when there was room for all of it;
    * then it is found there or before. Otherwise only an earlier match is found. */
  lemma InsertedIsFound(s: bytes, src: bytes, index: int, cap: nat, r: int)
    requires src != [] && IsPos(src, InsertCut(s, src, index, cap), r)
    ensures var at := InsertAt(Cut(s, EffCap(cap)), index);
            && (MatchAt(src, InsertCut(s, src, index, cap), at) <==> at + |src| <= EffCap(cap))
            && (at + |src| <= EffCap(cap) ==> 1 <= r <= at + 1)
            && (at + |src| > EffCap(cap) ==> 0 <= r <= at)
  {
    hide EffCap;
    var e := EffCap(cap);
    var (at, t) := (InsertAt(Cut(s, e), index), InsertCut(s, src, index, cap));
    if at + |src| <= e {
      assert t[at..at + |src|] == src;
      assert MatchAt(src, t, at);
    }
    assert r != 0 ==> MatchAt(src, t, r - 1);
  }

  /** Behind a full string nothing goes in, and nothing is found. */
  lemma NotFoundInFull()
    ensures InsertCut([97, 98, 99], [120], 4, 3) == [97, 98, 99]
    ensures IsPos([120], [97, 98, 99], 0)
  {
    var s: bytes := [97, 98, 99];
    var x: bytes := [120];
    assert InsertOf(s, x, 4) == [97, 98, 99, 120];
    forall i
      ensures !MatchAt(x, s, i)
    {
      assert 0 <= i < 3 ==> s[i..i + 1][0] == s[i];
    }
  }

  function Joined(parts: seq<bytes>): bytes {
    if parts == [] then [] else Joined(parts[..|parts| - 1]) + parts[|parts| - 1]
  }

  /** Concat as it is chained, cut at every step. */
  function Chained(parts: seq<bytes>, cap: nat): bytes {
    if parts == [] then [] else Cut(Chained(parts[..|parts| - 1], cap) + parts[|parts| - 1], cap)
  }

  /** Cutting early loses nothing that would have fitted. */
  lemma {:induction false} ChainIsCutOnce(parts: seq<bytes>, cap: nat)
    ensures Chained(parts, cap) == Cut(Joined(parts), cap)
  {
    if parts != [] {
      var init := parts[..|parts| - 1];
      ChainIsCutOnce(init, cap);
      CutsJoin(Joined(init), parts[|parts| - 1], cap);
    }
  }

  // ---- the order ----

  function Compare(a: bytes, b: bytes): (r: int)
    ensures -1 <= r <= 1
  {
    if a == [] then if b == [] then 0 else -1
    else if b == [] then 1
    else if a[0] != b[0] then if a[0] < b[0] then -1 else 1
    else Compare(a[1..], b[1..])
  }

  lemma {:induction false} CompareIsEquality(a: bytes, b: bytes)
    ensures Compare(a, b) == 0 <==> a == b
  {
    if a != [] && b != [] {
      CompareIsEquality(a[1..], b[1..]);
      assert a == [a[0]] + a[1..] && b == [b[0]] + b[1..];
    }
  }

  lemma {:induction false} CompareSwaps(a: bytes, b: bytes)
    ensures Compare(b, a) == -Compare(a, b)
  {
    if a != [] && b != [] {
      CompareSwaps(a[1..], b[1..]);
    }
  }

  /** Transitive, and strict if either step is. */
  lemma {:induction false} CompareChains(a: bytes, b: bytes, c: bytes)
    requires Compare(a, b) <= 0 && Compare(b, c) <= 0
    ensures Compare(a, c) <= 0
    ensures Compare(a, b) < 0 || Compare(b, c) < 0 ==> Compare(a, c) < 0
  {
    if a != [] && b != [] && c != [] && a[0] == b[0] == c[0] {
      CompareChains(a[1..], b[1..], c[1..]);
    }
  }

  /** A string is less than anything it is a proper prefix of. */
  lemma {:induction false} PrefixIsLess(a: bytes, b: bytes)
    requires b != []
    ensures Compare(a, a + b) == -1
  {
    if a != [] {
      PrefixIsLess(a[1..], b);
      assert (a + b)[1..] == a[1..] + b;
    } else {
      assert a + b == b;
    }
  }

  // ---- the order by the first difference ----

  /** The strings agree before `k`, and there `a` ends or has the smaller character. */
  ghost predicate LessAt(a: bytes, b: bytes, k: nat) {
    && k <= |a| && k < |b| && (forall i | 0 <= i < k :: a[i] == b[i])
    && (k == |a| || a[k] < b[k])
  }

  ghost predicate Less(a: bytes, b: bytes) {
    exists k: nat :: LessAt(a, b, k)
  }

  /** The comparison is negative exactly for strings in that order. */
  lemma {:induction false} CompareIsOrder(a: bytes, b: bytes)
    ensures Compare(a, b) < 0 <==> Less(a, b)
  {
    if a != [] && b != [] {
      CompareIsOrder(a[1..], b[1..]);
      if a[0] == b[0] {
        forall k: nat | LessAt(a[1..], b[1..], k)
          ensures LessAt(a, b, k + 1)
        {
          assert forall i | 0 < i < k + 1 :: a[i] == a[1..][i - 1] && b[i] == b[1..][i - 1];
        }
        assert forall k: nat | LessAt(a, b, k) :: k > 0 && LessAt(a[1..], b[1..], k - 1);
      } else {
        assert LessAt(a, b, 0) <==> a[0] < b[0];
        assert forall k: nat | LessAt(a, b, k) :: k == 0;
      }
    } else {
      assert b != [] ==> LessAt(a, b, 0);
    }
  }
}
