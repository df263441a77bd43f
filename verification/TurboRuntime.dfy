/** The Turbo readers as they run: the window in the file's record and the position of
  * its stream, moved one character at a time, and the transfers into a program's own
  * memory. */
module TurboRuntime {
  import opened Bytes
  import opened TextWindow
  import F = TurboFiles
  import opened TurboFiles
  import opened TurboText

  /** `d` is a later state of the cursor `c`. */
  ghost predicate Follows(c: Cursor, d: Cursor) {
    d.text == c.text && d.canRead == c.canRead && (c.err ==> d.err)
  }

  /** An open file whose stream exists. */
  predicate Live(s: Sys, f: nat) { IsOpen(s, f) && Fp(s, f) in s.streams }

  lemma {:induction false} PutBack(s: Sys, f: nat)
    requires Live(s, f)
    ensures PutCursor(s, f, CursorOf(s, f)) == s
  {
    var h := Fp(s, f);
    assert s.streams[h := s.streams[h]] == s.streams;
    assert s.files[f := s.files[f]] == s.files;
  }

  lemma {:induction false} PutTwice(s: Sys, f: nat, c: Cursor, d: Cursor)
    requires Live(s, f) && Follows(CursorOf(s, f), c) && Follows(c, d)
    ensures var t := PutCursor(s, f, c);
            && Live(t, f) && CursorOf(t, f) == c && IsReadable(t, f) == IsReadable(s, f)
            && PutCursor(t, f, d) == PutCursor(s, f, d)
  {
  }

  /** Every window operation goes on from where the last one stopped. */
  lemma {:induction false} Moved(s: Sys, f: nat, now: Sys, later: Sys, d: Cursor)
    requires Live(s, f) && Live(now, f) && now == PutCursor(s, f, CursorOf(now, f))
    requires Follows(CursorOf(s, f), CursorOf(now, f)) && Follows(CursorOf(now, f), d)
    requires later == PutCursor(now, f, d)
    ensures Live(later, f) && CursorOf(later, f) == d && later == PutCursor(s, f, d)
    ensures Follows(CursorOf(s, f), d) && IsReadable(later, f) == IsReadable(s, f)
  {
    PutTwice(s, f, CursorOf(now, f), d);
    PutTwice(s, f, d, d);
  }

  lemma {:induction false} MarkerStep(c: Cursor)
    ensures if c.buf == EOF || IsMarker(c.buf) then SkipToMarker(c) == c
            else SkipToMarker(c) == SkipToMarker(Advance(c)) && Ahead(Advance(c)) < Ahead(c)
  {
  }

  lemma {:induction false} BlankStep(c: Cursor, crossLines: bool)
    ensures if c.buf == EOF || !(IsBlank(c.buf) || (crossLines && IsMarker(c.buf))) then SkipWhitespace(c, crossLines) == c
            else SkipWhitespace(c, crossLines) == SkipWhitespace(Advance(c), crossLines) && Ahead(Advance(c)) < Ahead(c)
  {
  }

  lemma {:induction false} TokenStep(c: Cursor)
    ensures if c.buf == EOF || IsBlank(c.buf) || IsMarker(c.buf) then TakeToken(c) == Token(c, [])
            else
              var t := TakeToken(Advance(c));
              TakeToken(c) == Token(t.c, [Next(c)] + t.chars) && Ahead(Advance(c)) < Ahead(c)
  {
  }

  lemma FilledOver(was: seq<byte>, d: seq<byte>, size: nat)
    requires |d| <= size <= |was|
    ensures |Zeros(size) + was[size..]| == |was|
    ensures d + (Zeros(size) + was[size..])[|d|..] == Filled(d, size) + was[size..]
  {
    assert (Zeros(size) + was[size..])[|d|..] == Zeros(size - |d|) + was[size..];
    assert d + (Zeros(size - |d|) + was[size..]) == d + Zeros(size - |d|) + was[size..];
  }

  class Runtime {
    var inOutRes: int
    var fileMode: int
    var exit: Option<int>
    var files: map<nat, FileRec>
    var streams: map<nat, Stream>
    var nextHandle: nat
    var dir: map<string, nat>
    var inodes: map<nat, seq<byte>>
    var nextIno: nat

    function View(): Sys
      reads this
    {
      Sys(inOutRes, fileMode, exit, files, streams, nextHandle, dir, inodes, nextIno)
    }

    /** Where the file stands, and the window it keeps. */
    function Cur(f: nat): Cursor
      reads this
      requires IsOpen(View(), f)
    {
      CursorOf(View(), f)
    }

    // ---- the gate ----

    method SetInOutResIfClear(code: int)
      modifies `inOutRes
      ensures View() == SetIfClear(old(View()), code)
    {
      if inOutRes == 0 {
        inOutRes := code;
      }
    }

    method FileIsReady(f: nat) returns (ready: bool)
      modifies this
      ensures Readiness(View(), ready) == FileReady(old(View()), f) && (ready ==> Live(View(), f))
    {
      if inOutRes != 0 {
        return false;
      }
      if f !in files || files[f].fp.None? {
        SetInOutResIfClear(103);
        return false;
      }
      var h := files[f].fp.value;
      streams := streams[h := StreamOf(View(), h).(err := 0)];
      return true;
    }

    method TrapStreamError(f: nat, wantWrite: bool)
      requires IsOpen(View(), f)
      modifies `inOutRes
      ensures View() == TrapOnStreamError(old(View()), f, wantWrite)
    {
      var err := StreamOf(View(), Fp(View(), f)).err;
      if err == EBADF {
        SetInOutResIfClear(if wantWrite then 105 else 104);
      } else if err != 0 {
        SetInOutResIfClear(PosixToRunError(err));
      }
    }

    // ---- the window ----

    method FGetC(f: nat) returns (ch: int)
      requires Live(View(), f)
      modifies `streams
      ensures ch == Next(old(Cur(f))) && View() == PutCursor(old(View()), f, Fgetc(old(Cur(f))))
    {
      ghost var r := files[f];
      assert files[f := r] == files;
      var h := files[f].fp.value;
      var st := streams[h];
      if !st.canRead {
        streams := streams[h := st.(err := if st.err == 0 then EBADF else st.err)];
        return EOF;
      }
      var c := Content(View(), st.ino);
      if st.pos < |c| {
        ch := c[st.pos];
        streams := streams[h := st.(pos := st.pos + 1)];
      } else {
        ch := EOF;
        assert streams[h := st] == streams;
      }
    }

    /** Looks at the next character and pushes it back. */
    method PrimeWindow(f: nat)
      requires Live(View(), f)
      modifies `streams, `files
      ensures Live(View(), f) && View() == PutCursor(old(View()), f, Prime(old(Cur(f))))
    {
      var ch := FGetC(f);
      files := files[f := files[f].(buf := ch)];
      if ch != EOF {
        var h := files[f].fp.value;
        streams := streams[h := streams[h].(pos := streams[h].pos - 1)];
      }
    }

    method EnsureWindow(f: nat)
      requires Live(View(), f)
      modifies `streams, `files
      ensures Live(View(), f) && View() == PutCursor(old(View()), f, EnsurePrimed(old(Cur(f)), IsReadable(old(View()), f)))
    {
      PutBack(View(), f);
      if files[f].buf == UNINIT && files[f].readable != 0 {
        PrimeWindow(f);
      }
    }

    /** Takes the window's character and looks at the one after it. */
    method AdvanceWindow(f: nat) returns (ch: int)
      requires Live(View(), f)
      modifies `streams, `files
      ensures Live(View(), f) && ch == Next(old(Cur(f))) && View() == PutCursor(old(View()), f, Advance(old(Cur(f))))
    {
      ghost var c := Cur(f);
      ghost var s := View();
      ch := FGetC(f);
      PutTwice(s, f, Fgetc(c), Advance(c));
      PrimeWindow(f);
    }

    // ---- the line operations ----

    method Readln(f: nat)
      modifies this
      ensures View() == F.Readln(old(View()), f)
      ensures forall c, p: nat | Reading(old(View()), f, c, p) ::
                var q := LineEnd(c, p); Reading(View(), f, c, q) && Rec(View(), f).buf == CharAt(c, q)
    {
      ghost var start := View();
      var ready := FileIsReady(f);
      if ready {
        SkipLine(f);
      }
      forall c, p: nat | Reading(start, f, c, p)
        ensures var q := LineEnd(c, p); Reading(View(), f, c, q) && Rec(View(), f).buf == CharAt(c, q)
      {
        ReadlnLine(start, f, c, p);
      }
    }

    method SkipLine(f: nat)
      requires Live(View(), f)
      modifies `streams, `files
      ensures View() == PutCursor(old(View()), f, ReadlnTurbo(old(Cur(f)), IsReadable(old(View()), f)))
    {
      ghost var s := View();
      PutBack(s, f);
      ghost var from := EnsurePrimed(Cur(f), IsReadable(s, f));
      EnsureWindow(f);
      Moved(s, f, s, View(), from);
      SkipToEnd(f, s, from);
      TakeEnd(f, s, SkipToMarker(from));
    }

    method SkipToEnd(f: nat, ghost s: Sys, ghost from: Cursor)
      requires Live(s, f) && Live(View(), f) && View() == PutCursor(s, f, Cur(f)) && Follows(CursorOf(s, f), Cur(f))
      requires from == Cur(f)
      modifies `streams, `files
      ensures Live(View(), f) && View() == PutCursor(s, f, Cur(f)) && Follows(CursorOf(s, f), Cur(f))
      ensures Cur(f) == SkipToMarker(from)
    {
      hide Advance, Follows, PutCursor, SkipToMarker;
      while files[f].buf != EOF && files[f].buf != LF && files[f].buf != CR
        invariant Live(View(), f) && View() == PutCursor(s, f, Cur(f)) && Follows(CursorOf(s, f), Cur(f))
        invariant SkipToMarker(Cur(f)) == SkipToMarker(from)
        decreases Ahead(Cur(f))
      {
        MarkerStep(Cur(f));
        var _ := OneOn(f, s);
      }
      MarkerStep(Cur(f));
    }

    method TakeEnd(f: nat, ghost s: Sys, ghost from: Cursor)
      requires Live(s, f) && Live(View(), f) && View() == PutCursor(s, f, Cur(f)) && Follows(CursorOf(s, f), Cur(f))
      requires from == Cur(f)
      modifies `streams, `files
      ensures Live(View(), f) && View() == PutCursor(s, f, TakeMarker(from))
    {
      hide Advance, Follows, PutCursor;
      if files[f].buf == CR {
        var _ := OneOn(f, s);
        if files[f].buf == LF {
          var _ := OneOn(f, s);
        }
      } else if files[f].buf == LF {
        var _ := OneOn(f, s);
      }
    }

    /** One character on, as part of an operation that began in `s`. */
    method OneOn(f: nat, ghost s: Sys) returns (ch: int)
      requires Live(s, f) && Live(View(), f) && View() == PutCursor(s, f, Cur(f)) && Follows(CursorOf(s, f), Cur(f))
      modifies `streams, `files
      ensures Live(View(), f) && View() == PutCursor(s, f, Cur(f)) && Follows(CursorOf(s, f), Cur(f))
      ensures ch == Next(old(Cur(f))) && Cur(f) == Advance(old(Cur(f)))
    {
      ghost var (now, c) := (View(), Cur(f));
      ch := AdvanceWindow(f);
      Moved(s, f, now, View(), Advance(c));
    }

    method SkipTurboWhitespace(f: nat, crossLines: bool, ghost s: Sys, ghost from: Cursor)
      requires Live(s, f) && Live(View(), f) && View() == PutCursor(s, f, Cur(f)) && Follows(CursorOf(s, f), Cur(f))
      requires from == Cur(f)
      modifies `streams, `files
      ensures Live(View(), f) && View() == PutCursor(s, f, Cur(f)) && Follows(CursorOf(s, f), Cur(f))
      ensures Cur(f) == SkipWhitespace(from, crossLines)
    {
      hide Advance, Follows, PutCursor, SkipWhitespace;
      while true
        invariant Live(View(), f) && View() == PutCursor(s, f, Cur(f)) && Follows(CursorOf(s, f), Cur(f))
        invariant SkipWhitespace(Cur(f), crossLines) == SkipWhitespace(from, crossLines)
        decreases Ahead(Cur(f))
      {
        BlankStep(Cur(f), crossLines);
        var c := files[f].buf;
        if c == EOF {
          return;
        }
        if c == SPACE || c == TAB {
          var _ := OneOn(f, s);
          continue;
        }
        if crossLines && (c == LF || c == CR) {
          var _ := OneOn(f, s);
          continue;
        }
        return;
      }
    }

    /** SeekEof and SeekEoln. */
    method SeekEnd(f: nat, crossLines: bool) returns (b: bool)
      modifies this
      ensures F.Answer(View(), b) == SeekEofOrEoln(old(View()), f, crossLines)
      ensures forall c, p: nat | Reading(old(View()), f, c, p) ::
                var q := BlanksEnd(c, p, crossLines);
                Reading(View(), f, c, q) && (b <==> if crossLines then q == |c| else MarkerAt(c, q) == q)
    {
      ghost var start := View();
      b := SeekEndFrom(f, crossLines);
      forall c, p: nat | Reading(start, f, c, p)
        ensures var q := BlanksEnd(c, p, crossLines);
                Reading(View(), f, c, q) && (b <==> if crossLines then q == |c| else MarkerAt(c, q) == q)
      {
        SeekAt(start, f, crossLines, c, p);
      }
    }

    method SeekEndFrom(f: nat, crossLines: bool) returns (b: bool)
      modifies this
      ensures F.Answer(View(), b) == SeekEofOrEoln(old(View()), f, crossLines)
    {
      var ready := FileIsReady(f);
      if !ready || files[f].readable == 0 {
        return true;
      }
      ghost var s := View();
      PutBack(s, f);
      EnsureWindow(f);
      ghost var from := EnsurePrimed(CursorOf(s, f), true);
      Moved(s, f, s, View(), from);
      SkipTurboWhitespace(f, crossLines, s, from);
      var c := files[f].buf;
      b := c == EOF || (!crossLines && (c == LF || c == CR));
    }

    method Eoln(f: nat) returns (b: bool)
      modifies this
      ensures F.Answer(View(), b) == F.Eoln(old(View()), f)
      ensures forall c, p: nat | Reading(old(View()), f, c, p) ::
                Reading(View(), f, c, p) && (b <==> MarkerAt(c, p) == p)
    {
      ghost var start := View();
      b := AtLineEnd(f);
      forall c, p: nat | Reading(start, f, c, p)
        ensures Reading(View(), f, c, p) && (b <==> MarkerAt(c, p) == p)
      {
        EolnAt(start, f, c, p);
      }
    }

    method AtLineEnd(f: nat) returns (b: bool)
      modifies this
      ensures F.Answer(View(), b) == F.Eoln(old(View()), f)
    {
      var ready := FileIsReady(f);
      if !ready {
        return true;
      }
      ghost var s := View();
      PutBack(s, f);
      EnsureWindow(f);
      Moved(s, f, s, View(), EnsurePrimed(CursorOf(s, f), IsReadable(s, f)));
      var c := files[f].buf;
      b := c == EOF || c == LF || c == CR;
    }

    /** By records where there is a record size, otherwise by the window. */
    method Eof(f: nat) returns (b: bool)
      modifies this
      ensures F.Answer(View(), b) == F.Eof(old(View()), f)
      ensures forall c, p: nat | Reading(old(View()), f, c, p) :: Reading(View(), f, c, p) && (b <==> p == |c|)
    {
      ghost var start := View();
      b := AtEnd(f);
      forall c, p: nat | Reading(start, f, c, p)
        ensures Reading(View(), f, c, p) && (b <==> p == |c|)
      {
        EofAt(start, f, c, p);
      }
    }

    method AtEnd(f: nat) returns (b: bool)
      modifies this
      ensures F.Answer(View(), b) == F.Eof(old(View()), f)
    {
      var ready := FileIsReady(f);
      if !ready || files[f].readable == 0 {
        return true;
      }
      ghost var s := View();
      var recSize := files[f].recSize;
      if recSize > 0 {
        var h := files[f].fp.value;
        assert streams[h := streams[h].(err := 0)] == streams;
        var pos := if IsConsole(streams[h]) then 0 else streams[h].pos / recSize;
        var size := if IsConsole(streams[h]) then 0 else |Content(View(), streams[h].ino)| / recSize;
        return pos >= size;
      }
      PutBack(s, f);
      EnsureWindow(f);
      Moved(s, f, s, View(), EnsurePrimed(CursorOf(s, f), true));
      b := files[f].buf == EOF;
    }

    /** The program loop `while not Eof(f) do Readln(f)`: it ends, at the end of the
      * text, after one Readln for each line that was left. */
    method DrainLines(f: nat, ghost c: seq<byte>, ghost p: nat) returns (n: nat)
      requires Reading(View(), f, c, p)
      modifies this
      ensures n == |SplitLines(c[p..])| && Reading(View(), f, c, |c|)
    {
      n := 0;
      ghost var q := p;
      var done := Eof(f);
      while !done
        invariant q <= |c| && Reading(View(), f, c, q) && done == (q == |c|)
        invariant n + |SplitLines(c[q..])| == |SplitLines(c[p..])|
        decreases |c| - q
      {
        SplitAt(c, q);
        Readln(f);
        n := n + 1;
        q := LineEnd(c, q);
        done := Eof(f);
      }
    }

    // ---- characters and numbers ----

    method ReadChar(f: nat) returns (ch: int)
      modifies this
      ensures Outcome(View(), ch) == F.ReadChar(old(View()), f)
      ensures forall c, p: nat | Reading(old(View()), f, c, p) :: Took(View(), f, c, p, ch)
    {
      ghost var start := View();
      ch := TakeChar(f);
      forall c, p: nat | Reading(start, f, c, p)
        ensures Took(View(), f, c, p, ch)
      {
        CharTaken(start, f, c, p);
      }
    }

    method TakeChar(f: nat) returns (ch: int)
      modifies this
      ensures Outcome(View(), ch) == F.ReadChar(old(View()), f)
    {
      var ready := FileIsReady(f);
      if !ready {
        return 0;
      }
      ghost var s := View();
      PutBack(s, f);
      EnsureWindow(f);
      Moved(s, f, s, View(), EnsurePrimed(CursorOf(s, f), IsReadable(s, f)));
      if files[f].buf == EOF {
        return 26;
      }
      ch := OneOn(f, s);
      TrapStreamError(f, false);
    }

    /** The characters up to the next blank or marker. */
    method ScanToken(f: nat, ghost s: Sys, ghost from: Cursor) returns (chars: seq<int>)
      requires Live(s, f) && Live(View(), f) && View() == PutCursor(s, f, Cur(f)) && Follows(CursorOf(s, f), Cur(f))
      requires from == Cur(f)
      modifies `streams, `files
      ensures Live(View(), f) && View() == PutCursor(s, f, Cur(f))
      ensures TakeToken(from) == Token(Cur(f), chars)
    {
      hide TakeToken, Advance, Follows, PutCursor, IsBlank, IsMarker;
      chars := [];
      TokenStep(from);
      assert chars + TakeToken(from).chars == TakeToken(from).chars;
      while files[f].buf != EOF && !IsBlank(files[f].buf) && !IsMarker(files[f].buf)
        invariant Live(View(), f) && View() == PutCursor(s, f, Cur(f)) && Follows(CursorOf(s, f), Cur(f))
        invariant TakeToken(Cur(f)).c == TakeToken(from).c && chars + TakeToken(Cur(f)).chars == TakeToken(from).chars
        decreases Ahead(Cur(f))
      {
        ghost var c := Cur(f);
        ghost var rest := TakeToken(Advance(c)).chars;
        TokenStep(c);
        var ch := OneOn(f, s);
        assert chars + ([ch] + rest) == chars + [ch] + rest;
        chars := chars + [ch];
      }
      TokenStep(Cur(f));
      assert chars + [] == chars;
    }

    method ReadNumber(f: nat, parse: seq<int> -> Option<int>) returns (v: int)
      modifies this
      ensures Outcome(View(), v) == F.ReadNumber(old(View()), f, parse)
    {
      var ready := FileIsReady(f);
      if !ready {
        return 0;
      }
      ghost var s := View();
      PutBack(s, f);
      ghost var from := if Cur(f).buf == UNINIT then Prime(Cur(f)) else Cur(f);
      if files[f].buf == UNINIT {
        PrimeWindow(f);
      }
      Moved(s, f, s, View(), from);
      SkipTurboWhitespace(f, true, s, from);
      var sawAny := files[f].buf != EOF;
      ghost var d := Cur(f);
      var token := ScanToken(f, s, d);
      TrapStreamError(f, false);
      if !sawAny {
        return 0;
      }
      match parse(token)
      case None =>
        SetInOutResIfClear(106);
        return 0;
      case Some(n) =>
        return n;
    }

    // ---- transfers into the program's memory ----

    /** Reads up to `want` bytes to the start of `buf`. */
    method StdioRead(f: nat, buf: array<byte>, want: nat) returns (n: nat)
      requires Live(View(), f) && want <= buf.Length
      modifies `streams, buf
      ensures var r := Fread(old(View()), f, want);
              && View() == r.s && n == r.n == |r.data| <= want && buf[..] == r.data + old(buf[..])[n..]
    {
      var h := files[f].fp.value;
      var st := streams[h];
      if !st.canRead {
        streams := streams[h := st.(err := EBADF)];
        n := 0;
        assert buf[..] == [] + buf[0..];
        return;
      }
      var c := Content(View(), st.ino);
      n := if st.pos >= |c| then 0 else if st.pos + want <= |c| then want else |c| - st.pos;
      forall i | 0 <= i < n {
        buf[i] := c[st.pos + i];
      }
      streams := streams[h := st.(pos := st.pos + n)];
    }

    /** `buf` is the memory the program gave; what the file delivers goes to its start. */
    method BlockRead(f: nat, buf: array<byte>, count: int, hasResult: bool) returns (actual: int)
      requires IsOpen(View(), f) && Rec(View(), f).recSize > 0 && count > 0 ==> count * Rec(View(), f).recSize <= buf.Length
      modifies this, buf
      ensures var r := F.BlockRead(old(View()), f, count, hasResult);
              && View() == r.s && actual == r.n && |r.data| <= buf.Length && buf[..] == r.data + old(buf[..])[|r.data|..]
    {
      ghost var was := buf[..];
      assert was == [] + was[0..];
      var ready := FileIsReady(f);
      if !ready || count <= 0 {
        return 0;
      }
      var recSize := files[f].recSize;
      if recSize < 0 {
        exit := Some(217);
        return 0;
      }
      if recSize == 0 {
        return 0;
      }
      var got := StdioRead(f, buf, count * recSize);
      actual := got / recSize;
      files := files[f := files[f].(buf := UNINIT)];
      if !hasResult && actual < count {
        SetInOutResIfClear(100);
      }
    }

    method ReadCleared(f: nat, buf: array<byte>, size: nat) returns (n: nat)
      requires Live(View(), f) && size <= buf.Length
      modifies `streams, buf
      ensures var r := Fread(old(View()), f, size);
              && View() == r.s && n == r.n && buf[..] == Filled(r.data, size) + old(buf[..])[size..]
    {
      hide Fread, Filled;
      ghost var was := buf[..];
      Clear(buf, size);
      ghost var d := Fread(View(), f, size).data;
      n := StdioRead(f, buf, size);
      FilledOver(was, d, size);
    }

    /** memset with zeros. */
    static method Clear(buf: array<byte>, size: nat)
      requires size <= buf.Length
      modifies buf
      ensures buf[..] == Zeros(size) + old(buf[size..])
    {
      forall i | 0 <= i < size {
        buf[i] := 0;
      }
    }

    /** One component into `buf`, which is cleared first. */
    method ReadBinary(f: nat, buf: array<byte>, size: nat)
      requires size <= buf.Length
      modifies this, buf
      ensures var r := F.ReadBinary(old(View()), f, size);
              && View() == r.s && |r.data| <= buf.Length && buf[..] == r.data + old(buf[..])[|r.data|..]
    {
      ghost var was := buf[..];
      assert was == [] + was[0..];
      var ready := FileIsReady(f);
      if !ready {
        return;
      }
      var got := ReadCleared(f, buf, size);
      TrapStreamError(f, false);
      if got < size || size == 0 {
        SetInOutResIfClear(100);
      }
      PrimeWindow(f);
    }
  }
}
