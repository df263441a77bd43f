/** A text file behind its one-character lookahead window: the Turbo line
  * operations against the text they read. */
module TextWindow {
  import opened Bytes

  const EOF := -1
  const UNINIT := -2

  /** An open stream and the window `buf` in front of it. The window character
    * is pushed back, so the position is that of the window itself; `err` is the
    * stream's error indicator, which a read of a write-only stream raises. */
  datatype Cursor = Cursor(text: seq<byte>, pos: nat, canRead: bool, buf: int, err: bool)

  /** The byte at the position, or EOF. */
  function Next(c: Cursor): int {
    if c.canRead && c.pos < |c.text| then c.text[c.pos] else EOF
  }

  function Fgetc(c: Cursor): Cursor {
    c.(pos := if Next(c) == EOF then c.pos else c.pos + 1, err := c.err || !c.canRead)
  }

  function Prime(c: Cursor): Cursor {
    c.(buf := Next(c), err := c.err || !c.canRead)
  }

  function EnsurePrimed(c: Cursor, readable: bool): Cursor {
    if c.buf == UNINIT && readable then Prime(c) else c
  }

  function Advance(c: Cursor): Cursor {
    Prime(Fgetc(c))
  }

  /** Bytes ahead, and one more while the window has not seen the end. */
  function Ahead(c: Cursor): nat {
    (if c.pos < |c.text| then |c.text| - c.pos else 0) + (if c.buf == EOF then 0 else 1)
  }

  function SkipToMarker(c: Cursor): (r: Cursor)
    decreases Ahead(c)
  {
    if c.buf == EOF || IsMarker(c.buf) then c else SkipToMarker(Advance(c))
  }

  function TakeMarker(c: Cursor): Cursor {
    if c.buf == CR then
      var d := Advance(c);
      if d.buf == LF then Advance(d) else d
    else if c.buf == LF then Advance(c)
    else c
  }

  function ReadlnTurbo(c: Cursor, readable: bool): Cursor {
    TakeMarker(SkipToMarker(EnsurePrimed(c, readable)))
  }

  function SkipWhitespace(c: Cursor, crossLines: bool): Cursor
    decreases Ahead(c)
  {
    if c.buf == EOF then c
    else if IsBlank(c.buf) || (crossLines && IsMarker(c.buf)) then SkipWhitespace(Advance(c), crossLines)
    else c
  }

  /** The window is empty or holds the byte at the position. */
  predicate WindowOk(c: Cursor) {
    c.buf == UNINIT || c.buf == Next(c)
  }

  // ---- what a line is ----

  /** The position just past the first CR, LF or CRLF at or after `p`, or the end. */
  function LineEnd(text: seq<byte>, p: nat): (q: nat)
    ensures p <= |text| ==> p <= q <= |text|
    ensures p < |text| ==> q > p
    decreases |text| - p
  {
    if p >= |text| then p
    else if text[p] == CR && p + 1 < |text| && text[p + 1] == LF then p + 2
    else if IsMarker(text[p]) then p + 1
    else LineEnd(text, p + 1)
  }

  /** A line's characters and the marker that ended it; only a last line can lack one. */
  datatype Line = Line(chars: seq<byte>, marker: seq<byte>) {
    function Size(): nat { |chars| + |marker| }
    predicate StartsWithLf() { chars == [] && marker == [LF] }
  }

  predicate NoMarkers(s: seq<byte>) {
    forall k | 0 <= k < |s| :: !IsMarker(s[k])
  }

  function FirstLine(text: seq<byte>): (l: Line)
    ensures l.Size() <= |text|
    ensures text != [] ==> l.Size() > 0
  {
    if text == [] then Line([], [])
    else if text[0] == CR && |text| > 1 && text[1] == LF then Line([], [CR, LF])
    else if IsMarker(text[0]) then Line([], [text[0]])
    else
      var l := FirstLine(text[1..]);
      Line([text[0]] + l.chars, l.marker)
  }

  lemma {:induction false} FirstLineShape(text: seq<byte>)
    ensures var l := FirstLine(text);
            && text[..l.Size()] == l.chars + l.marker
            && NoMarkers(l.chars) && l.marker in {[], [LF], [CR], [CR, LF]}
            && (l.marker == [] ==> l.Size() == |text|)
            && (l.marker == [CR] && l.Size() < |text| ==> text[l.Size()] != LF)
  {
    if text != [] && !IsMarker(text[0]) {
      var l := FirstLine(text[1..]);
      FirstLineShape(text[1..]);
      assert text[..l.Size() + 1] == [text[0]] + text[1..][..l.Size()];
      assert text[0] != CR;
    }
  }

  /** The lines of a text: CR, LF and CRLF end one, and a rest without a marker is one. */
  function SplitLines(text: seq<byte>): (lines: seq<Line>)
    decreases |text|
  {
    if text == [] then []
    else [FirstLine(text)] + SplitLines(text[FirstLine(text).Size()..])
  }

  function Joined(lines: seq<Line>): seq<byte> {
    if lines == [] then [] else lines[0].chars + lines[0].marker + Joined(lines[1..])
  }

  /** Every line but the last has its marker, and a CR is never taken for a
    * whole marker when LF follows it. */
  predicate GoodLine(lines: seq<Line>, i: nat)
    requires i < |lines|
  {
    && NoMarkers(lines[i].chars)
    && lines[i].marker in {[], [LF], [CR], [CR, LF]}
    && (lines[i].marker == [] ==> i == |lines| - 1 && lines[i].chars != [])
    && (lines[i].marker == [CR] && i + 1 < |lines| ==> !lines[i + 1].StartsWithLf())
  }

  /** The splitter loses nothing and cuts only at whole markers. */
  lemma {:induction false} SplitLinesGood(text: seq<byte>)
    ensures Joined(SplitLines(text)) == text
    ensures forall i | 0 <= i < |SplitLines(text)| :: GoodLine(SplitLines(text), i)
    decreases |text|
  {
    if text != [] {
      var l := FirstLine(text);
      var rest := text[l.Size()..];
      var tail := SplitLines(rest);
      var lines := SplitLines(text);
      SplitLinesGood(rest);
      FirstLineShape(text);
      assert lines[1..] == tail && lines[0] == l;
      assert text == text[..l.Size()] + rest;
      if rest != [] {
        assert tail[0] == FirstLine(rest) && rest[0] == text[l.Size()];
      }
      forall i | 0 <= i < |lines| ensures GoodLine(lines, i) {
        if i > 0 {
          assert GoodLine(tail, i - 1);
        }
      }
    }
  }

  lemma {:induction false} LineEndIsFirstLine(text: seq<byte>, p: nat)
    requires p <= |text|
    ensures LineEnd(text, p) == p + FirstLine(text[p..]).Size()
    decreases |text| - p
  {
    if p < |text| && !IsMarker(text[p]) {
      assert text[p..][1..] == text[p + 1..];
      LineEndIsFirstLine(text, p + 1);
    }
  }

  lemma SplitAt(text: seq<byte>, p: nat)
    requires p < |text|
    ensures SplitLines(text[p..]) == [FirstLine(text[p..])] + SplitLines(text[LineEnd(text, p)..])
  {
    LineEndIsFirstLine(text, p);
    assert text[p..][FirstLine(text[p..]).Size()..] == text[LineEnd(text, p)..];
  }

  // ---- the operations against the text ----

  predicate Ready(c: Cursor, readable: bool) {
    c.canRead && WindowOk(c) && c.pos <= |c.text| && (readable || c.buf != UNINIT)
  }

  /** The position of the first marker at or after `p`, or the end. */
  function MarkerAt(text: seq<byte>, p: nat): (q: nat)
    ensures p <= |text| ==> p <= q <= |text|
    decreases |text| - p
  {
    if p >= |text| || IsMarker(text[p]) then p else MarkerAt(text, p + 1)
  }

  lemma {:induction false} MarkerThere(text: seq<byte>, p: nat)
    requires p <= |text|
    ensures MarkerAt(text, p) < |text| ==> IsMarker(text[MarkerAt(text, p)])
    decreases |text| - p
  {
    if p < |text| && !IsMarker(text[p]) {
      MarkerThere(text, p + 1);
    }
  }

  /** A primed cursor at `p`. */
  function Primed(c: Cursor, p: nat): Cursor {
    Prime(c.(pos := p))
  }

  lemma {:induction false} SkipToMarkerAt(c: Cursor)
    requires c.canRead && c.buf == Next(c) && c.pos <= |c.text|
    ensures SkipToMarker(c) == Primed(c, MarkerAt(c.text, c.pos))
    decreases Ahead(c)
  {
    if c.buf != EOF && !IsMarker(c.buf) {
      SkipToMarkerAt(Advance(c));
    }
  }

  lemma {:induction false} LineEndAfterMarker(text: seq<byte>, p: nat)
    requires p <= |text|
    ensures var q := MarkerAt(text, p);
            LineEnd(text, p) == if q == |text| then q
                                else if text[q] == CR && q + 1 < |text| && text[q + 1] == LF then q + 2
                                else q + 1
    decreases |text| - p
  {
    if p < |text| && !IsMarker(text[p]) {
      LineEndAfterMarker(text, p + 1);
    }
  }

  lemma AdvancePrimed(c: Cursor, p: nat)
    requires c.canRead && p < |c.text|
    ensures Advance(Primed(c, p)) == Primed(c, p + 1)
  {
  }

  lemma TakeMarkerLands(c: Cursor, q: nat)
    requires c.canRead && (q == |c.text| || (q < |c.text| && IsMarker(c.text[q])))
    ensures TakeMarker(Primed(c, q)) ==
            Primed(c, if q == |c.text| then q
                      else if c.text[q] == CR && q + 1 < |c.text| && c.text[q + 1] == LF then q + 2
                      else q + 1)
  {
    hide Advance;
    if q < |c.text| {
      AdvancePrimed(c, q);
    }
    if q + 1 < |c.text| {
      AdvancePrimed(c, q + 1);
    }
  }

  /** From any position a Turbo `readln` leaves the file just past the first
    * CR, LF or CRLF, or at the end, with the window on the byte there. */
  lemma ReadlnLands(c: Cursor, readable: bool)
    requires Ready(c, readable)
    ensures ReadlnTurbo(c, readable) == Primed(c, LineEnd(c.text, c.pos))
  {
    hide TakeMarker, SkipToMarker;
    var d := EnsurePrimed(c, readable);
    SkipToMarkerAt(d);
    LineEndAfterMarker(c.text, c.pos);
    MarkerThere(c.text, c.pos);
    assert Primed(d, MarkerAt(c.text, c.pos)) == Primed(c, MarkerAt(c.text, c.pos));
    TakeMarkerLands(c, MarkerAt(c.text, c.pos));
  }

  /** How many `readln`s a `while not Eof do Readln` loop makes. */
  function ReadlnsToEof(c: Cursor): nat
    requires Ready(c, true)
    decreases |c.text| - c.pos
  {
    var d := EnsurePrimed(c, true);
    if d.buf == EOF then 0
    else
      ReadlnLands(d, true);
      1 + ReadlnsToEof(ReadlnTurbo(d, true))
  }

  /** It makes as many as there are lines. */
  lemma {:induction false} ReadlnsCountLines(c: Cursor)
    requires Ready(c, true)
    ensures ReadlnsToEof(c) == |SplitLines(c.text[c.pos..])|
    decreases |c.text| - c.pos
  {
    var d := EnsurePrimed(c, true);
    if d.buf != EOF {
      ReadlnLands(d, true);
      SplitAt(c.text, c.pos);
      ReadlnsCountLines(ReadlnTurbo(d, true));
    }
  }

  /** The position `SeekEof` or `SeekEoln` stops at. */
  function BlanksEnd(text: seq<byte>, p: nat, crossLines: bool): (q: nat)
    ensures p <= |text| ==> p <= q <= |text|
    ensures forall k | p <= k < q :: k < |text| && (IsBlank(text[k]) || (crossLines && IsMarker(text[k])))
    ensures p <= |text| && q < |text| ==> !IsBlank(text[q]) && !(crossLines && IsMarker(text[q]))
    decreases |text| - p
  {
    if p < |text| && (IsBlank(text[p]) || (crossLines && IsMarker(text[p]))) then BlanksEnd(text, p + 1, crossLines) else p
  }

  lemma {:induction false} SkipWhitespaceLands(c: Cursor, crossLines: bool)
    requires c.canRead && c.buf == Next(c) && c.pos <= |c.text|
    ensures SkipWhitespace(c, crossLines) == Primed(c, BlanksEnd(c.text, c.pos, crossLines))
    decreases Ahead(c)
  {
    if IsBlank(c.buf) || (crossLines && IsMarker(c.buf)) {
      SkipWhitespaceLands(Advance(c), crossLines);
    }
  }
}
