/** The line index of a source buffer: where lines start, which line an offset is
  * in, and the text of a line. */
module SourceLines {
  import opened Bytes

  type text = seq<byte>

  /** A line terminator ends just before `e`: LF, CR, or CRLF taken as one. */
  predicate EndsAt(t: text, e: int) {
    1 <= e <= |t| && (t[e - 1] == LF || (t[e - 1] == CR && (e < |t| ==> t[e] != LF)))
  }

  /** The ends of the terminators at or before `n`, in order. */
  function Ends(t: text, n: nat): (r: seq<nat>)
    requires n <= |t|
    ensures forall k | 0 <= k < |r| :: 1 <= r[k] <= n && EndsAt(t, r[k])
    ensures forall j, k | 0 <= j < k < |r| :: r[j] < r[k]
  {
    if n == 0 then [] else Ends(t, n - 1) + if EndsAt(t, n) then [n] else []
  }

  function LineStarts(t: text): seq<nat> { [0] + Ends(t, |t|) }

  /** The index is built in one pass that steps over the LF of a CRLF. */
  method IndexLines(t: text) returns (starts: seq<nat>)
    ensures starts == LineStarts(t)
  {
    starts := [0];
    var i := 0;
    while i < |t|
      invariant 0 <= i <= |t| && starts == [0] + Ends(t, i)
      invariant 0 < i < |t| ==> !(t[i - 1] == CR && t[i] == LF)
    {
      if t[i] == LF {
        starts := starts + [i + 1];
      } else if t[i] == CR {
        if i + 1 < |t| && t[i + 1] == LF {
          i := i + 1;
          assert Ends(t, i) == Ends(t, i - 1);
        }
        starts := starts + [i + 1];
      }
      i := i + 1;
    }
  }

  lemma {:induction false} EndsGrow(t: text, n: nat, m: nat)
    requires n <= m <= |t|
    ensures Ends(t, n) <= Ends(t, m)
    ensures forall k | |Ends(t, n)| <= k < |Ends(t, m)| :: Ends(t, m)[k] > n
    decreases m
  {
    if n < m {
      EndsGrow(t, n, m - 1);
    }
  }

  /** Every terminator's end is there. */
  lemma {:induction false} EndsAll(t: text, n: nat, e: int)
    requires n <= |t| && e <= n && EndsAt(t, e)
    ensures e in Ends(t, n)
  {
    if e < n {
      EndsAll(t, n - 1, e);
    }
  }

  /** std::upper_bound: the first element past `v`. */
  method UpperBound(a: seq<nat>, v: nat) returns (i: nat)
    requires forall j, k | 0 <= j < k < |a| :: a[j] < a[k]
    ensures i <= |a|
    ensures forall k | 0 <= k < i :: a[k] <= v
    ensures forall k | i <= k < |a| :: a[k] > v
  {
    var lo, hi := 0, |a|;
    while lo < hi
      invariant 0 <= lo <= hi <= |a|
      invariant forall k | 0 <= k < lo :: a[k] <= v
      invariant forall k | hi <= k < |a| :: a[k] > v
    {
      var mid := (lo + hi) / 2;
      if v < a[mid] {
        hi := mid;
      } else {
        lo := mid + 1;
      }
    }
    i := lo;
  }

  /** The line of an offset, counted from 1, is found by binary search; it is one
    * more than the terminators that end at or before the offset. */
  method LineOf(t: text, starts: seq<nat>, off: nat) returns (line: nat)
    requires starts == LineStarts(t) && off <= |t|
    ensures line == 1 + |Ends(t, off)| && line <= |starts|
    ensures starts[line - 1] <= off && (line < |starts| ==> off < starts[line])
  {
    line := UpperBound(starts, off);
    StartsSplit(t, off);
    ghost var n := |Ends(t, off)|;
    hide Ends, LineStarts;
    assert starts[n] <= off && (n + 1 < |starts| ==> starts[n + 1] > off);
  }

  /** The starts up to the offset are those of the terminators that end there or before. */
  lemma {:induction false} StartsSplit(t: text, off: nat)
    requires off <= |t|
    ensures var (starts, n) := (LineStarts(t), |Ends(t, off)|);
            && n < |starts| && starts[n] <= off
            && (forall k | 0 <= k <= n :: starts[k] <= off) && (forall k | n < k < |starts| :: starts[k] > off)
  {
    hide Ends;
    EndsGrow(t, off, |t|);
    var (all, some) := (Ends(t, |t|), Ends(t, off));
    var starts := LineStarts(t);
    assert forall k | 0 <= k < |some| :: all[k] == some[k];
    assert forall k | 0 < k < |starts| :: starts[k] == all[k - 1];
    EndsInside(t, off);
  }

  lemma EndsInside(t: text, n: nat)
    requires n <= |t|
    ensures forall k | 0 <= k < |Ends(t, n)| :: Ends(t, n)[k] <= n
  {
  }

  // ---- the text of a line ----

  /** The text of line `k`, counted from 0: the last character of its terminator
    * goes with the next line's start, the CR of a CRLF is taken off here. */
  function LineText(t: text, k: nat): text
    requires k < |LineStarts(t)|
  {
    var starts := LineStarts(t);
    var end := if k + 1 < |starts| then starts[k + 1] - 1 else |t|;
    StartsInside(t, k);
    WithoutCr(t[starts[k]..end])
  }

  function WithoutCr(line: text): text {
    if line != [] && line[|line| - 1] == CR then line[..|line| - 1] else line
  }

  lemma StartsInside(t: text, k: nat)
    requires k < |LineStarts(t)|
    ensures var starts := LineStarts(t);
            starts[k] <= |t| && (k + 1 < |starts| ==> starts[k] <= starts[k + 1] - 1 < |t| && EndsAt(t, starts[k + 1]))
  {
  }

  /** The same, from the index. */
  method CutLine(t: text, starts: seq<nat>, k: nat) returns (line: text)
    requires starts == LineStarts(t) && k < |starts|
    ensures line == LineText(t, k)
  {
    StartsInside(t, k);
    var end := if k + 1 < |starts| then starts[k + 1] - 1 else |t|;
    line := t[starts[k]..end];
    if line != [] && line[|line| - 1] == CR {
      line := line[..|line| - 1];
    }
  }

  predicate NoMarkers(s: text) {
    forall i | 0 <= i < |s| :: !IsMarker(s[i])
  }

  /** What ends line `k`; nothing ends the last. */
  function Terminator(t: text, k: nat): text
    requires k < |LineStarts(t)|
  {
    var starts := LineStarts(t);
    StartsInside(t, k);
    if k + 1 == |starts| then []
    else
      var e := starts[k + 1];
      if t[e - 1] == LF && e - 1 > starts[k] && t[e - 2] == CR then [CR, LF] else [t[e - 1]]
  }

  lemma StartsAscend(t: text, i: nat, j: nat)
    requires j < |LineStarts(t)|
    ensures i < j ==> LineStarts(t)[i] < LineStarts(t)[j]
  {
    hide Ends, EndsAt;
  }

  lemma {:induction false} NotAStart(t: text, k: nat, e: int, j: nat)
    requires k < |LineStarts(t)| && j + 1 < |LineStarts(t)|
    requires var starts := LineStarts(t); starts[k] < e && (k + 1 < |starts| ==> e < starts[k + 1])
    ensures Ends(t, |t|)[j] != e
  {
    hide Ends, EndsAt;
    assert LineStarts(t)[j + 1] == Ends(t, |t|)[j];
    StartsAscend(t, j + 1, k);
    if k + 1 < |LineStarts(t)| {
      StartsAscend(t, k + 1, j + 1);
    }
  }

  lemma {:induction false} NoStartBetween(t: text, k: nat, e: int)
    requires k < |LineStarts(t)|
    requires var starts := LineStarts(t); starts[k] < e && (k + 1 < |starts| ==> e < starts[k + 1])
    ensures e !in Ends(t, |t|)
  {
    hide Ends, EndsAt;
    forall j | 0 <= j < |Ends(t, |t|)|
      ensures Ends(t, |t|)[j] != e
    {
      NotAStart(t, k, e, j);
    }
  }

  /** No terminator ends inside a line. */
  lemma {:induction false} InsideLine(t: text, k: nat, i: nat)
    requires k < |LineStarts(t)|
    requires var starts := LineStarts(t);
             starts[k] <= i < |t| && (k + 1 < |starts| ==> i + 1 < starts[k + 1])
    ensures !EndsAt(t, i + 1)
  {
    hide LineStarts;
    NoStartBetween(t, k, i + 1);
    if EndsAt(t, i + 1) {
      EndsAll(t, |t|, i + 1);
    }
  }

  /** Where the next line starts, or the end. */
  function NextStart(t: text, k: nat): nat
    requires k < |LineStarts(t)|
  {
    if k + 1 < |LineStarts(t)| then LineStarts(t)[k + 1] else |t|
  }

  /** A CR ends the line unless an LF follows it, so inside a line there is at most
    * one, just before its end. */
  lemma {:induction false} OnlyLastIsCr(t: text, s: nat, e: nat)
    requires s <= e <= |t|
    requires forall j | s < j <= e :: !EndsAt(t, j)
    ensures forall i | s <= i < e :: t[i] != LF && (t[i] == CR ==> i + 1 == e < |t| && t[e] == LF)
  {
    forall i | s <= i < e
      ensures t[i] != LF && (t[i] == CR ==> i + 1 == e < |t| && t[e] == LF)
    {
      assert !EndsAt(t, i + 1);
      if i + 1 < e {
        assert !EndsAt(t, i + 2);
      }
    }
  }

  lemma {:induction false} LineInside(t: text, k: nat)
    requires k < |LineStarts(t)|
    ensures var (s, e) := (LineStarts(t)[k], if k + 1 < |LineStarts(t)| then NextStart(t, k) - 1 else |t|);
            && s <= e <= |t| && (k + 1 < |LineStarts(t)| ==> e < |t| && EndsAt(t, e + 1))
            && forall i | s <= i < e :: t[i] != LF && (t[i] == CR ==> i + 1 == e < |t| && t[e] == LF)
  {
    hide LineStarts, Ends, EndsAt;
    StartsInside(t, k);
    var s := LineStarts(t)[k];
    var e := if k + 1 < |LineStarts(t)| then LineStarts(t)[k + 1] - 1 else |t|;
    forall j | s < j <= e
      ensures !EndsAt(t, j)
    {
      InsideLine(t, k, j - 1);
    }
    OnlyLastIsCr(t, s, e);
  }

  /** Taking the CR off leaves exactly what the terminator is not. */
  lemma {:induction false} Splits(t: text, s: nat, e: nat)
    requires s <= e < |t| && IsMarker(t[e])
    requires forall i | s <= i < e :: t[i] != LF && (t[i] == CR ==> i + 1 == e && t[e] == LF)
    ensures var line := WithoutCr(t[s..e]);
            && NoMarkers(line)
            && t[s..e + 1] == line + if t[e] == LF && e > s && t[e - 1] == CR then [CR, LF] else [t[e]]
  {
    var line := t[s..e];
    assert forall i | 0 <= i < |line| :: line[i] == t[s + i];
    if e > s && t[e - 1] == CR {
      assert t[s..e + 1] == line[..|line| - 1] + [CR, LF];
    } else {
      assert t[s..e + 1] == line + [t[e]];
    }
  }

  lemma {:induction false} LastLine(t: text, s: nat)
    requires s <= |t| && forall i | s <= i < |t| :: t[i] != LF && t[i] != CR
    ensures WithoutCr(t[s..]) == t[s..] && NoMarkers(t[s..])
  {
    assert forall i | 0 <= i < |t[s..]| :: t[s..][i] == t[s + i];
  }

  /** A line's text has no CR and no LF in it, and is followed by its terminator. */
  lemma {:induction false} LineShape(t: text, k: nat)
    requires k < |LineStarts(t)|
    ensures LineStarts(t)[k] <= NextStart(t, k) <= |t|
    ensures t[LineStarts(t)[k]..NextStart(t, k)] == LineText(t, k) + Terminator(t, k)
    ensures NoMarkers(LineText(t, k))
    ensures Terminator(t, k) in (if k + 1 < |LineStarts(t)| then {[LF], [CR], [CR, LF]} else {[]})
  {
    hide LineStarts, Ends, WithoutCr, NoMarkers;
    LineInside(t, k);
    var s := LineStarts(t)[k];
    if k + 1 == |LineStarts(t)| {
      LastLine(t, s);
      assert t[s..] == t[s..|t|] == t[s..] + [];
    } else {
      Splits(t, s, NextStart(t, k) - 1);
    }
  }

  function Rebuilt(t: text, k: nat): text
    requires k <= |LineStarts(t)|
    decreases |LineStarts(t)| - k
  {
    if k == |LineStarts(t)| then [] else LineText(t, k) + Terminator(t, k) + Rebuilt(t, k + 1)
  }

  /** The lines with their terminators are the buffer. */
  lemma {:induction false} LinesRebuild(t: text)
    ensures Rebuilt(t, 0) == t
  {
    RebuiltFrom(t, 0);
    assert t[0..] == t;
  }

  lemma {:induction false} RebuiltFrom(t: text, k: nat)
    requires k < |LineStarts(t)|
    ensures LineStarts(t)[k] <= |t| && Rebuilt(t, k) == t[LineStarts(t)[k]..]
    decreases |LineStarts(t)| - k
  {
    hide LineText, Terminator, LineStarts;
    LineShape(t, k);
    var (s, e) := (LineStarts(t)[k], NextStart(t, k));
    if k + 1 == |LineStarts(t)| {
      assert Rebuilt(t, k + 1) == [] && LineText(t, k) + Terminator(t, k) + [] == t[s..];
    } else {
      RebuiltFrom(t, k + 1);
      assert t[s..] == t[s..e] + t[e..];
    }
  }
}
