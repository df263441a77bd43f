/** The lookahead window of a Turbo file never shows a byte that is not there. */
module TurboWindow {
  import opened Bytes
  import opened TextWindow
  import opened TurboFiles

  /** If the file is open, its window is empty or holds the byte at its position. */
  predicate Honest(s: Sys, f: nat) {
    IsOpen(s, f) ==> WindowOk(CursorOf(s, f))
  }

  /** A text write to a stream that can also be read moves the position and
    * leaves the window alone; only typed files have such streams. */
  predicate WritesUnderWindow(s: Sys, op: Op) {
    op.OpWriteText? && IsOpen(s, op.f) && StreamOf(s, Fp(s, op.f)).canRead && StreamOf(s, Fp(s, op.f)).canWrite
  }

  predicate OnFile(op: Op) { !op.OpIoResult? && !op.OpIoCheck? }

  lemma {:induction false} ReadyHonest(s: Sys, f: nat)
    requires Honest(s, f)
    ensures Honest(FileReady(s, f).s, f)
  {
  }

  lemma {:induction false} CodeHonest(s: Sys, f: nat, code: int, wantWrite: bool)
    requires Honest(s, f)
    ensures Honest(SetIfClear(s, code), f)
    ensures IsOpen(s, f) ==> Honest(TrapOnStreamError(s, f, wantWrite), f)
  {
  }

  lemma {:induction false} DropHonest(s: Sys, f: nat)
    ensures Honest(DropWindow(s, f), f)
  {
  }

  lemma {:induction false} CursorHonest(s: Sys, f: nat, c: Cursor)
    requires IsOpen(s, f) && WindowOk(c) && c.text == CursorOf(s, f).text && c.canRead == CursorOf(s, f).canRead
    ensures Honest(PutCursor(s, f, c), f) && IsOpen(PutCursor(s, f, c), f)
  {
  }

  /** Nothing that reads through the window changes what is behind it. */
  ghost predicate SameText(c: Cursor, d: Cursor) {
    WindowOk(d) && d.text == c.text && d.canRead == c.canRead
  }

  lemma {:induction false} SkipSameText(c: Cursor, crossLines: bool)
    requires WindowOk(c)
    ensures SameText(c, SkipWhitespace(c, crossLines))
    decreases Ahead(c)
  {
    if c.buf != EOF && (IsBlank(c.buf) || (crossLines && IsMarker(c.buf))) {
      SkipSameText(Advance(c), crossLines);
    }
  }

  lemma {:induction false} MarkerSameText(c: Cursor)
    requires WindowOk(c)
    ensures SameText(c, SkipToMarker(c))
    decreases Ahead(c)
  {
    if c.buf != EOF && !IsMarker(c.buf) {
      MarkerSameText(Advance(c));
    }
  }

  lemma {:induction false} TokenSameText(c: Cursor)
    requires WindowOk(c)
    ensures SameText(c, TakeToken(c).c)
    decreases Ahead(c)
  {
    if c.buf != EOF && !IsBlank(c.buf) && !IsMarker(c.buf) {
      TokenSameText(Advance(c));
    }
  }

  lemma {:induction false} ReadlnSameText(c: Cursor, readable: bool)
    requires WindowOk(c)
    ensures SameText(c, ReadlnTurbo(c, readable))
  {
    var d := EnsurePrimed(c, readable);
    MarkerSameText(d);
    var e := SkipToMarker(d);
    assert SameText(e, TakeMarker(e));
  }

  lemma {:induction false} OpenHonest(s: Sys, f: nat, os: Os)
    ensures !Pending(s) ==> Honest(Reset(s, f, os), f) && Honest(Rewrite(s, f, os), f) && Honest(Append(s, f, os), f)
  {
  }

  lemma {:induction false} TransferHonest(s: Sys, f: nat, data: seq<byte>, os: Os)
    requires IsOpen(s, f) && Honest(s, f)
    requires !StreamOf(s, Fp(s, f)).canRead || !StreamOf(s, Fp(s, f)).canWrite
    ensures var w := Fwrite(s, f, data, os).s;
            IsOpen(w, f) && Honest(w, f)
  {
  }

  /** What an operation needs of its cursor once the file is ready. */
  lemma {:induction false} ReadyCursor(s: Sys, f: nat) returns (c: Cursor)
    requires Honest(s, f) && FileReady(s, f).ready
    ensures c == CursorOf(FileReady(s, f).s, f) && WindowOk(c)
    ensures SameText(c, EnsurePrimed(c, true)) && SameText(c, EnsurePrimed(c, IsReadable(FileReady(s, f).s, f)))
  {
    ReadyHonest(s, f);
    HonestCursor(FileReady(s, f).s, f);
    c := CursorOf(FileReady(s, f).s, f);
  }

  lemma {:induction false} EolnHonest(s: Sys, f: nat)
    requires Honest(s, f)
    ensures Honest(Eoln(s, f).s, f)
  {
    hide FileReady, PutCursor, CursorOf, Honest, EnsurePrimed;
    ReadyHonest(s, f);
    var g := FileReady(s, f);
    if g.ready {
      var c := ReadyCursor(s, f);
      CursorHonest(g.s, f, EnsurePrimed(c, IsReadable(g.s, f)));
    }
  }

  lemma {:induction false} SeekEofHonest(s: Sys, f: nat, crossLines: bool)
    requires Honest(s, f)
    ensures Honest(SeekEofOrEoln(s, f, crossLines).s, f)
  {
    hide FileReady, PutCursor, CursorOf, Honest, EnsurePrimed, SkipWhitespace;
    ReadyHonest(s, f);
    var g := FileReady(s, f);
    if g.ready {
      var c := ReadyCursor(s, f);
      SkipSameText(EnsurePrimed(c, true), crossLines);
      CursorHonest(g.s, f, SkipWhitespace(EnsurePrimed(c, true), crossLines));
    }
  }

  lemma {:induction false} ReadlnHonest(s: Sys, f: nat)
    requires Honest(s, f)
    ensures Honest(Readln(s, f), f)
  {
    hide FileReady, PutCursor, CursorOf, Honest, ReadlnTurbo;
    ReadyHonest(s, f);
    var g := FileReady(s, f);
    if g.ready {
      var c := ReadyCursor(s, f);
      ReadlnSameText(c, IsReadable(g.s, f));
      CursorHonest(g.s, f, ReadlnTurbo(c, IsReadable(g.s, f)));
    }
  }

  lemma {:induction false} ReadCharHonest(s: Sys, f: nat)
    requires Honest(s, f)
    ensures Honest(ReadChar(s, f).s, f)
  {
    hide FileReady, PutCursor, CursorOf, Honest, EnsurePrimed, TrapOnStreamError;
    ReadyHonest(s, f);
    var g := FileReady(s, f);
    if g.ready {
      var c := ReadyCursor(s, f);
      var p := EnsurePrimed(c, IsReadable(g.s, f));
      CursorHonest(g.s, f, p);
      CursorHonest(g.s, f, Advance(p));
      CodeHonest(PutCursor(g.s, f, Advance(p)), f, 0, false);
    }
  }

  lemma {:induction false} HonestCursor(s: Sys, f: nat)
    requires Honest(s, f) && IsOpen(s, f)
    ensures WindowOk(CursorOf(s, f))
  {
  }

  lemma {:induction false} ReadNumberHonest(s: Sys, f: nat, parse: seq<int> -> Option<int>)
    requires Honest(s, f)
    ensures Honest(ReadNumber(s, f, parse).s, f)
  {
    hide FileReady, PutCursor, TrapOnStreamError, SetIfClear, SkipWhitespace, TakeToken, CursorOf, Honest;
    ReadyHonest(s, f);
    var g := FileReady(s, f);
    if g.ready {
      HonestCursor(g.s, f);
      var c := CursorOf(g.s, f);
      var q := if c.buf == UNINIT then Prime(c) else c;
      var d := SkipWhitespace(q, true);
      SkipSameText(q, true);
      TokenSameText(d);
      var t := PutCursor(g.s, f, TakeToken(d).c);
      CursorHonest(g.s, f, TakeToken(d).c);
      CodeHonest(t, f, 0, false);
      CodeHonest(TrapOnStreamError(t, f, false), f, 106, false);
    }
  }

  lemma {:induction false} ReadBinaryHonest(s: Sys, f: nat, n: nat)
    requires Honest(s, f)
    ensures Honest(ReadBinary(s, f, n).s, f)
  {
    hide FileReady, Fread, TrapOnStreamError, SetIfClear, Prime;
    ReadyHonest(s, f);
    var g := FileReady(s, f);
    if g.ready {
      ReadOpen(g.s, f, n);
      var t := TrapOnStreamError(Fread(g.s, f, n).s, f, false);
      var u := if Fread(g.s, f, n).n < n || n == 0 then SetIfClear(t, 100) else t;
      PrimeHonest(CursorOf(u, f));
      CursorHonest(u, f, Prime(CursorOf(u, f)));
    }
  }

  lemma {:induction false} PrimeHonest(c: Cursor)
    ensures SameText(c, Prime(c))
  {
  }

  lemma {:induction false} ReadOpen(s: Sys, f: nat, n: nat)
    requires IsOpen(s, f)
    ensures IsOpen(Fread(s, f, n).s, f)
    ensures var t := TrapOnStreamError(Fread(s, f, n).s, f, false);
            IsOpen(t, f) && IsOpen(SetIfClear(t, 100), f)
  {
  }

  lemma {:induction false} EofHonest(s: Sys, f: nat)
    requires Honest(s, f)
    ensures Honest(Eof(s, f).s, f)
  {
    ReadyHonest(s, f);
    var g := FileReady(s, f);
    ReadyHonest(g.s, f);
    ReadyHonest(FilePos(g.s, f).s, f);
    if g.ready {
      CursorHonest(g.s, f, EnsurePrimed(CursorOf(g.s, f), true));
    }
  }

  lemma {:induction false} BlockHonest(s: Sys, op: Op)
    requires op.OpBlockRead? || op.OpBlockWrite? || op.OpWriteText? || op.OpWriteBinary?
    requires s.exit.None? && Honest(s, op.f) && !WritesUnderWindow(s, op)
    ensures Honest(Step(s, op).s, op.f)
  {
    hide Honest, Fread, DropWindow, SetIfClear, TrapOnStreamError;
    var f := op.f;
    ReadyHonest(s, f);
    forall t { DropHonest(t, f); }
    forall t, code | Honest(t, f) ensures Honest(SetIfClear(t, code), f) { CodeHonest(t, f, code, true); }
    match op
    case OpWriteText(_, d, os) =>
      var g := FileReady(s, f);
      if g.ready && d != [] {
        TransferHonest(g.s, f, d, os);
        CodeHonest(Fwrite(g.s, f, d, os).s, f, 0, true);
      }
    case OpBlockRead(_, _, _) =>
      AbortHonest(FileReady(s, f).s, f);
    case OpBlockWrite(_, _, _, _, _) =>
      AbortHonest(FileReady(s, f).s, f);
    case _ =>
  }

  lemma {:induction false} AbortHonest(s: Sys, f: nat)
    requires Honest(s, f)
    ensures Honest(Abort(s, 217), f)
  {
  }

  /** Every Turbo operation on a file keeps its window honest, but for a text
    * write under a readable stream. */
  lemma {:induction false} WindowKept(s: Sys, op: Op)
    requires OnFile(op) && Honest(s, op.f) && !WritesUnderWindow(s, op)
    ensures Honest(Step(s, op).s, op.f)
  {
    hide FileReady, PutCursor, TrapOnStreamError, CursorOf, Reset, Rewrite, Append, Fread, Fwrite, Eof, Eoln,
         SeekEofOrEoln, Readln, ReadChar, ReadNumber, ReadBinary, Erase, Rename, Seek, Truncate, Flush, BlockRead, BlockWrite,
         WriteText, WriteBinary, Assign, Close, FilePos, FileSize, ResetSized, RewriteSized, Honest;
    if s.exit.None? {
      var f := op.f;
      ReadyHonest(s, f);
      match op
      case OpReset(_, os) => OpenHonest(s, f, os); PendingOpens(s, f, os);
      case OpRewrite(_, os) => OpenHonest(s, f, os); PendingOpens(s, f, os);
      case OpAppend(_, os) => OpenHonest(s, f, os); PendingOpens(s, f, os);
      case OpResetSized(_, n, os) => SizedHonest(s, f, n, os);
      case OpRewriteSized(_, n, os) => SizedHonest(s, f, n, os);
      case OpAssign(_, name) => CloseHonest(s, f, name);
      case OpClose(_) => CloseHonest(s, f, "");
      case OpBlockRead(_, _, _) => BlockHonest(s, op);
      case OpBlockWrite(_, _, _, _, _) => BlockHonest(s, op);
      case OpWriteText(_, _, _) => BlockHonest(s, op);
      case OpWriteBinary(_, _, _) => BlockHonest(s, op);
      case OpReadBinary(_, n) => ReadBinaryHonest(s, f, n);
      case OpEof(_) => EofHonest(s, f);
      case OpReadNumber(_, parse) => ReadNumberHonest(s, f, parse);
      case OpErase(_, os) => NamesHonest(s, f, "", os);
      case OpRename(_, name, os) => NamesHonest(s, f, name, os);
      case OpFilePos(_) => PositionHonest(s, f);
      case OpFileSize(_) => PositionHonest(s, f);
      case OpSeek(_, n) => SeekHonest(s, f, n);
      case OpTruncate(_, os) => TruncateHonest(s, f, os);
      case OpFlush(_, os) => FlushHonest(s, f, os);
      case OpEoln(_) => EolnHonest(s, f);
      case OpSeekEof(_) => SeekEofHonest(s, f, true);
      case OpSeekEoln(_) => SeekEofHonest(s, f, false);
      case OpReadln(_) => ReadlnHonest(s, f);
      case OpReadChar(_) => ReadCharHonest(s, f);
    }
  }

  lemma {:induction false} SizedHonest(s: Sys, f: nat, n: int, os: Os)
    requires Honest(s, f)
    ensures Honest(ResetSized(s, f, n, os), f) && Honest(RewriteSized(s, f, n, os), f)
  {
    hide Reset, Rewrite;
    OpenHonest(WithRecSize(s, f, n), f, os);
  }

  lemma {:induction false} CloseHonest(s: Sys, f: nat, name: string)
    requires Honest(s, f)
    ensures Honest(Assign(s, f, name), f) && Honest(Close(s, f), f)
  {
  }

  lemma {:induction false} PositionHonest(s: Sys, f: nat)
    requires Honest(s, f)
    ensures Honest(FilePos(s, f).s, f) && Honest(FileSize(s, f).s, f)
  {
  }

  lemma {:induction false} PendingOpens(s: Sys, f: nat, os: Os)
    ensures Pending(s) ==> Reset(s, f, os) == s && Rewrite(s, f, os) == s && Append(s, f, os) == s
  {
  }

  lemma {:induction false} NamesHonest(s: Sys, f: nat, name: string, os: Os)
    requires Honest(s, f)
    ensures Honest(Erase(s, f, os), f) && Honest(Rename(s, f, name, os), f)
  {
  }

  lemma {:induction false} SeekHonest(s: Sys, f: nat, n: int)
    requires Honest(s, f)
    ensures Honest(Seek(s, f, n), f)
  {
    hide FileReady;
    ReadyHonest(s, f);
  }

  lemma {:induction false} TruncateHonest(s: Sys, f: nat, os: Os)
    requires Honest(s, f)
    ensures Honest(Truncate(s, f, os), f)
  {
    hide FileReady;
    ReadyHonest(s, f);
  }

  lemma {:induction false} FlushHonest(s: Sys, f: nat, os: Os)
    requires Honest(s, f)
    ensures Honest(Flush(s, f, os), f)
  {
    hide FileReady;
    ReadyHonest(s, f);
  }
}
