/** What a Turbo program sees of a text file it reads: each operation against the
  * text, and whole reading loops. */
module TurboText {
  import opened Bytes
  import opened TextWindow
  import opened TurboFiles

  /** `f` is a text file being read, and stands at `p` of the text `c`. */
  ghost predicate Reading(s: Sys, f: nat, c: seq<byte>, p: nat) {
    && !Pending(s) && s.exit.None? && IsOpen(s, f) && IsReadable(s, f) && Rec(s, f).recSize <= 0
    && p <= |c|
    && var r := CursorOf(s, f);
       r.text == c && r.pos == p && r.canRead && WindowOk(r)
  }

  /** The character at `p`, or EOF. */
  function CharAt(c: seq<byte>, p: nat): int {
    if p < |c| then c[p] else EOF
  }

  lemma {:induction false} ReadyReading(s: Sys, f: nat, c: seq<byte>, p: nat) returns (r: Cursor)
    requires Reading(s, f, c, p)
    ensures var g := FileReady(s, f);
            g.ready && Reading(g.s, f, c, p) && IsReadable(g.s, f) && r == CursorOf(g.s, f) && Rec(g.s, f) == Rec(s, f)
    ensures r == Cursor(c, p, true, r.buf, false) && (r.buf == UNINIT || r.buf == CharAt(c, p))
    ensures Primed(r, p) == EnsurePrimed(r, true) == Cursor(c, p, true, CharAt(c, p), false)
  {
    r := CursorOf(FileReady(s, f).s, f);
  }

  lemma {:induction false} PutReading(s: Sys, f: nat, c: seq<byte>, p: nat, q: nat)
    requires Reading(s, f, c, p) && !CursorOf(s, f).err && q <= |c|
    ensures var t := PutCursor(s, f, Cursor(c, q, true, CharAt(c, q), false));
            Reading(t, f, c, q) && Rec(t, f).buf == CharAt(c, q) && TrapOnStreamError(t, f, false) == t
  {
  }

  lemma {:induction false} ReadlnLine(s: Sys, f: nat, c: seq<byte>, p: nat)
    requires Reading(s, f, c, p)
    ensures var (t, q) := (Readln(s, f), LineEnd(c, p));
            Reading(t, f, c, q) && Rec(t, f).buf == CharAt(c, q)
  {
    hide Reading, PutCursor, CursorOf, ReadlnTurbo, FileReady;
    var r := ReadyReading(s, f, c, p);
    ReadlnLands(r, true);
    EndsWithin(c, p);
    PutReading(FileReady(s, f).s, f, c, p, LineEnd(c, p));
  }

  /** Readln moves to the start of the next line, its first character in the window. */
  lemma {:induction false} ReadlnMoves(s: Sys, f: nat, c: seq<byte>, p: nat)
    requires Reading(s, f, c, p)
    ensures var (t, q) := (Step(s, OpReadln(f)).s, LineEnd(c, p));
            Reading(t, f, c, q) && Rec(t, f).buf == CharAt(c, q)
  {
    assert s.exit.None?;
    hide Reading, Readln;
    ReadlnLine(s, f, c, p);
  }

  lemma EndsWithin(c: seq<byte>, p: nat)
    requires p <= |c|
    ensures LineEnd(c, p) <= |c|
  {
  }

  lemma {:induction false} EofAt(s: Sys, f: nat, c: seq<byte>, p: nat)
    requires Reading(s, f, c, p)
    ensures Reading(Eof(s, f).s, f, c, p) && (Eof(s, f).b <==> p == |c|)
  {
    var r := ReadyReading(s, f, c, p);
    hide Reading, PutCursor, CursorOf, FileReady;
    PutReading(FileReady(s, f).s, f, c, p, p);
  }

  /** Eof is whether nothing is left, and takes nothing. */
  lemma {:induction false} EofTells(s: Sys, f: nat, c: seq<byte>, p: nat)
    requires Reading(s, f, c, p)
    ensures var r := Step(s, OpEof(f));
            Reading(r.s, f, c, p) && r.n == if p == |c| then 1 else 0
  {
    assert s.exit.None?;
    hide Reading, Eof;
    EofAt(s, f, c, p);
  }

  lemma {:induction false} EolnAt(s: Sys, f: nat, c: seq<byte>, p: nat)
    requires Reading(s, f, c, p)
    ensures Reading(Eoln(s, f).s, f, c, p) && (Eoln(s, f).b <==> MarkerAt(c, p) == p)
  {
    hide Reading, PutCursor, CursorOf, FileReady;
    var r := ReadyReading(s, f, c, p);
    PutReading(FileReady(s, f).s, f, c, p, p);
  }

  /** Eoln is whether the line has no more characters. */
  lemma {:induction false} EolnTells(s: Sys, f: nat, c: seq<byte>, p: nat)
    requires Reading(s, f, c, p)
    ensures var r := Step(s, OpEoln(f));
            Reading(r.s, f, c, p) && r.n == if MarkerAt(c, p) == p then 1 else 0
  {
    assert s.exit.None?;
    hide Reading, Eoln;
    EolnAt(s, f, c, p);
  }

  lemma {:induction false} SeekAt(s: Sys, f: nat, crossLines: bool, c: seq<byte>, p: nat)
    requires Reading(s, f, c, p)
    ensures var (a, q) := (SeekEofOrEoln(s, f, crossLines), BlanksEnd(c, p, crossLines));
            && Reading(a.s, f, c, q)
            && (a.b <==> if crossLines then q == |c| else MarkerAt(c, q) == q)
  {
    hide Reading, PutCursor, CursorOf, FileReady, SkipWhitespace, BlanksEnd;
    var r := ReadyReading(s, f, c, p);
    SkipWhitespaceLands(EnsurePrimed(r, true), crossLines);
    PutReading(FileReady(s, f).s, f, c, p, BlanksEnd(c, p, crossLines));
  }

  /** SeekEof and SeekEoln stop at the first character that is no blank (for SeekEof,
    * no marker either), and say whether there is none on the file or the line. */
  lemma {:induction false} SeekStops(s: Sys, f: nat, crossLines: bool, c: seq<byte>, p: nat)
    requires Reading(s, f, c, p)
    ensures var (r, q) := (Step(s, if crossLines then OpSeekEof(f) else OpSeekEoln(f)), BlanksEnd(c, p, crossLines));
            && Reading(r.s, f, c, q)
            && r.n == if crossLines then (if q == |c| then 1 else 0) else if MarkerAt(c, q) == q then 1 else 0
  {
    assert s.exit.None?;
    hide Reading, SeekEofOrEoln;
    SeekAt(s, f, crossLines, c, p);
  }

  /** `ch` is the character at `p` and the file is past it; at the end it is 26. */
  ghost predicate Took(t: Sys, f: nat, c: seq<byte>, p: nat, ch: int) {
    if p >= |c| then ch == 26 && Reading(t, f, c, p) else ch == c[p] as int && Reading(t, f, c, p + 1)
  }

  lemma {:induction false} CharTaken(s: Sys, f: nat, c: seq<byte>, p: nat)
    requires Reading(s, f, c, p)
    ensures Took(ReadChar(s, f).s, f, c, p, ReadChar(s, f).n)
  {
    hide Reading, PutCursor, CursorOf, FileReady, TrapOnStreamError;
    var r := ReadyReading(s, f, c, p);
    PutReading(FileReady(s, f).s, f, c, p, if p == |c| then p else p + 1);
  }

  /** A character is taken as it is, a marker too; past the end it is 26 and stays so. */
  lemma {:induction false} ReadCharTakes(s: Sys, f: nat, c: seq<byte>, p: nat)
    requires Reading(s, f, c, p)
    ensures var r := Step(s, OpReadChar(f));
            Took(r.s, f, c, p, r.n)
  {
    assert s.exit.None?;
    hide Reading, ReadChar, Took;
    CharTaken(s, f, c, p);
  }

  // ---- tokens ----

  /** The position of the first blank or marker at or after `p`, or the end. */
  function TokenEnd(c: seq<byte>, p: nat): (q: nat)
    ensures p <= |c| ==> p <= q <= |c|
    ensures p < |c| && !IsBlank(c[p]) && !IsMarker(c[p]) ==> q > p
    decreases |c| - p
  {
    if p >= |c| || IsBlank(c[p]) || IsMarker(c[p]) then p else TokenEnd(c, p + 1)
  }

  function Ints(c: seq<byte>): (r: seq<int>) {
    seq(|c|, i requires 0 <= i < |c| => c[i] as int)
  }

  lemma {:induction false} TokenLands(c: seq<byte>, p: nat)
    requires p <= |c|
    ensures var t := TakeToken(Cursor(c, p, true, CharAt(c, p), false));
            var q := TokenEnd(c, p);
            && t.c == Cursor(c, q, true, CharAt(c, q), false)
            && t.chars == Ints(c[p..q])
    decreases |c| - p
  {
    if p < |c| && !IsBlank(c[p]) && !IsMarker(c[p]) {
      var q := TokenEnd(c, p);
      TokenLands(c, p + 1);
      assert Advance(Cursor(c, p, true, CharAt(c, p), false)) == Cursor(c, p + 1, true, CharAt(c, p + 1), false);
      assert [c[p] as int] + Ints(c[p + 1..q]) == Ints(c[p..q]);
    }
  }

  lemma {:induction false} NumberTaken(s: Sys, f: nat, parse: seq<int> -> Option<int>, c: seq<byte>, p: nat)
    requires Reading(s, f, c, p)
    ensures BlanksEnd(c, p, true) <= TokenEnd(c, BlanksEnd(c, p, true)) <= |c|
    ensures var r := ReadNumber(s, f, parse);
            var q := BlanksEnd(c, p, true);
            var e := TokenEnd(c, q);
            var v := parse(Ints(c[q..e]));
            if q < |c| && v.None? then r.n == 0 && r.s.inOutRes == 106 && Reading(r.s.(inOutRes := 0), f, c, e)
            else r.n == (if q == |c| then 0 else v.value) && Reading(r.s, f, c, e)
  {
    hide PutCursor, CursorOf, FileReady, SkipWhitespace, BlanksEnd, TakeToken, TrapOnStreamError, TokenEnd;
    var r := ReadyReading(s, f, c, p);
    SkipWhitespaceLands(EnsurePrimed(r, true), true);
    var q := BlanksEnd(c, p, true);
    TokenLands(c, q);
    PutReading(FileReady(s, f).s, f, c, p, TokenEnd(c, q));
    ClearReading(PutCursor(FileReady(s, f).s, f, TakeToken(Cursor(c, q, true, CharAt(c, q), false)).c), f, c, TokenEnd(c, q));
  }

  /** A numeric read takes the next token whole, over any blanks and lines before it,
    * and answers what it parses to: 0 where there is no token, and 0 with error 106
    * where it does not parse. */
  lemma {:induction false} ReadNumberTakes(s: Sys, f: nat, parse: seq<int> -> Option<int>, c: seq<byte>, p: nat)
    requires Reading(s, f, c, p)
    ensures BlanksEnd(c, p, true) <= TokenEnd(c, BlanksEnd(c, p, true)) <= |c|
    ensures var r := Step(s, OpReadNumber(f, parse));
            var q := BlanksEnd(c, p, true);
            var e := TokenEnd(c, q);
            var v := parse(Ints(c[q..e]));
            if q < |c| && v.None? then r.n == 0 && r.s.inOutRes == 106 && Reading(r.s.(inOutRes := 0), f, c, e)
            else r.n == (if q == |c| then 0 else v.value) && Reading(r.s, f, c, e)
  {
    assert s.exit.None?;
    hide Reading, ReadNumber;
    NumberTaken(s, f, parse, c, p);
  }

  lemma {:induction false} ClearReading(s: Sys, f: nat, c: seq<byte>, p: nat)
    requires Reading(s, f, c, p)
    ensures SetIfClear(s, 106).inOutRes == 106 && SetIfClear(s, 106).(inOutRes := 0) == s
  {
  }

  // ---- reading loops ----

  /** `n` character reads. */
  function Chars(s: Sys, f: nat, n: nat): (seq<int>, Sys)
    decreases n
  {
    if n == 0 then ([], s)
    else
      var r := Step(s, OpReadChar(f));
      var rest := Chars(r.s, f, n - 1);
      ([r.n] + rest.0, rest.1)
  }

  /** Reading as many characters as are left delivers the rest of the text. */
  lemma {:induction false} CharsDeliver(s: Sys, f: nat, c: seq<byte>, p: nat, n: nat)
    requires Reading(s, f, c, p) && p + n <= |c|
    ensures var (got, t) := Chars(s, f, n);
            got == Ints(c[p..p + n]) && Reading(t, f, c, p + n) && Step(t, OpEof(f)).n == if p + n == |c| then 1 else 0
    decreases n
  {
    hide Reading, Step;
    if n == 0 {
      EofTells(s, f, c, p);
    } else {
      ReadCharTakes(s, f, c, p);
      CharsDeliver(Step(s, OpReadChar(f)).s, f, c, p + 1, n - 1);
      assert [c[p] as int] + Ints(c[p + 1..p + n]) == Ints(c[p..p + n]);
    }
  }

  /** The tokens of a text from `p` on: its longest stretches without blank or marker. */
  function Tokens(c: seq<byte>, p: nat): seq<seq<int>>
    requires p <= |c|
    decreases |c| - p
  {
    var q := BlanksEnd(c, p, true);
    if q >= |c| then []
    else
      var e := TokenEnd(c, q);
      [Ints(c[q..e])] + Tokens(c, e)
  }

  /** The program loop `while not SeekEof(f) do Read(f, x)`, for at most `fuel` rounds,
    * with the numbers it reads. */
  function Numbers(s: Sys, f: nat, parse: seq<int> -> Option<int>, fuel: nat): (seq<int>, Sys)
    decreases fuel
  {
    var a := Step(s, OpSeekEof(f));
    if a.n == 1 || fuel == 0 then ([], a.s)
    else
      var r := Step(a.s, OpReadNumber(f, parse));
      var rest := Numbers(r.s, f, parse, fuel - 1);
      ([r.n] + rest.0, rest.1)
  }

  predicate AllParse(parse: seq<int> -> Option<int>, ts: seq<seq<int>>) {
    forall i | 0 <= i < |ts| :: parse(ts[i]).Some?
  }

  /** If every token parses, the loop ends after one round for each, at the end of the
    * file, with their values. */
  lemma {:induction false} NumbersDeliver(s: Sys, f: nat, parse: seq<int> -> Option<int>, c: seq<byte>, p: nat, fuel: nat)
    requires Reading(s, f, c, p) && AllParse(parse, Tokens(c, p)) && fuel >= |Tokens(c, p)|
    ensures var (got, t) := Numbers(s, f, parse, fuel);
            && |got| == |Tokens(c, p)|
            && (forall i | 0 <= i < |got| :: Some(got[i]) == parse(Tokens(c, p)[i]))
            && Reading(t, f, c, |c|)
    decreases fuel
  {
    hide Reading, Step, TokenEnd;
    Within(s, f, c, p);
    SeekStops(s, f, true, c, p);
    var a := Step(s, OpSeekEof(f));
    var q := BlanksEnd(c, p, true);
    if a.n == 0 {
      BlanksDone(c, q);
      var (ts, e) := (Tokens(c, p), TokenEnd(c, q));
      hide BlanksEnd;
      assert ts[0] == Ints(c[q..e]) && ts[1..] == Tokens(c, e);
      assert forall i | 0 <= i < |ts| - 1 :: ts[1..][i] == ts[i + 1];
      ReadNumberTakes(a.s, f, parse, c, q);
      NumbersDeliver(Step(a.s, OpReadNumber(f, parse)).s, f, parse, c, e, fuel - 1);
    }
  }

  lemma Within(s: Sys, f: nat, c: seq<byte>, p: nat)
    requires Reading(s, f, c, p)
    ensures p <= |c|
  {
  }

  lemma BlanksDone(c: seq<byte>, q: nat)
    requires q < |c| && !IsBlank(c[q]) && !IsMarker(c[q])
    ensures BlanksEnd(c, q, true) == q
  {
  }
}
