/** What an operation on one Turbo file leaves of the others: everything, as long as
  * no two open files share what is stored. */
module TurboFrame {
  import opened Bytes
  import opened TextWindow
  import F = TurboFiles
  import opened TurboFiles
  import opened TurboLatch
  import opened TurboWindow

  /** The stored file `f` is open on. */
  function InoOf(s: Sys, f: nat): nat
    requires IsOpen(s, f)
  {
    StreamOf(s, Fp(s, f)).ino
  }

  /** No stored file, and no console, is open under two variables. */
  ghost predicate Unshared(s: Sys) {
    forall f, g | f != g && IsOpen(s, f) && IsOpen(s, g) :: InoOf(s, f) != InoOf(s, g)
  }

  /** `g` has the same record and the same position and, `deep` down, the same text. */
  ghost predicate Leaves(s: Sys, t: Sys, g: nat, deep: bool) {
    && Rec(t, g) == Rec(s, g)
    && (IsOpen(s, g) ==>
          && StreamOf(t, Fp(s, g)) == StreamOf(s, Fp(s, g))
          && (deep ==> Content(t, InoOf(s, g)) == Content(s, InoOf(s, g))))
  }

  ghost predicate Apart(s: Sys, f: nat, g: nat, deep: bool) {
    f != g && (IsOpen(s, f) && IsOpen(s, g) ==> Fp(s, f) != Fp(s, g) && (deep ==> InoOf(s, f) != InoOf(s, g)))
  }

  ghost predicate Off(s: Sys, t: Sys, f: nat, g: nat, deep: bool) { Leaves(s, t, g, deep) && Apart(t, f, g, deep) }

  lemma {:induction false} OffReady(s: Sys, f: nat, g: nat, deep: bool)
    requires Apart(s, f, g, deep)
    ensures Off(s, FileReady(s, f).s, f, g, deep)
  {
  }

  lemma {:induction false} OffEdits(s: Sys, t: Sys, f: nat, g: nat, code: int, wantWrite: bool, deep: bool)
    requires Off(s, t, f, g, deep)
    ensures Off(s, SetIfClear(t, code), f, g, deep) && Off(s, DropWindow(t, f), f, g, deep)
    ensures IsOpen(t, f) ==> Off(s, TrapOnStreamError(t, f, wantWrite), f, g, deep)
  {
    OffDrop(s, t, f, g, deep);
    OffCode(s, t, f, g, code, deep);
    OffCode(s, t, f, g, if wantWrite then 105 else 104, deep);
    hide Off, DropWindow, SetIfClear;
    if IsOpen(t, f) {
      OffCode(s, t, f, g, PosixToRunError(StreamOf(t, Fp(t, f)).err), deep);
    }
  }

  lemma {:induction false} OffDrop(s: Sys, t: Sys, f: nat, g: nat, deep: bool)
    requires Off(s, t, f, g, deep)
    ensures Off(s, DropWindow(t, f), f, g, deep)
  {
  }

  lemma {:induction false} OffCode(s: Sys, t: Sys, f: nat, g: nat, code: int, deep: bool)
    requires Off(s, t, f, g, deep)
    ensures Off(s, SetIfClear(t, code), f, g, deep)
  {
  }

  lemma {:induction false} OffCursor(s: Sys, t: Sys, f: nat, g: nat, c: Cursor, deep: bool)
    requires Off(s, t, f, g, deep) && IsOpen(t, f)
    ensures Off(s, PutCursor(t, f, c), f, g, deep) && IsOpen(PutCursor(t, f, c), f)
  {
  }

  lemma {:induction false} OffFread(s: Sys, t: Sys, f: nat, g: nat, want: nat, deep: bool)
    requires Off(s, t, f, g, deep) && IsOpen(t, f)
    ensures Off(s, Fread(t, f, want).s, f, g, deep) && IsOpen(Fread(t, f, want).s, f)
  {
  }

  lemma {:induction false} OffFwrite(s: Sys, t: Sys, f: nat, g: nat, data: seq<byte>, os: Os, deep: bool)
    requires Off(s, t, f, g, deep) && IsOpen(t, f)
    ensures Off(s, Fwrite(t, f, data, os).s, f, g, deep) && IsOpen(Fwrite(t, f, data, os).s, f)
  {
    hide Splice;
  }

  // ---- the operations on an open file ----

  lemma {:induction false} OffText(s: Sys, op: Op, g: nat, deep: bool)
    requires s.exit.None? && OnFile(op) && Apart(s, op.f, g, deep)
    requires op.OpEoln? || op.OpSeekEof? || op.OpSeekEoln? || op.OpReadln? || op.OpReadChar?
    ensures Leaves(s, Step(s, op).s, g, deep)
  {
    hide FileReady, PutCursor, TrapOnStreamError, EnsurePrimed, SkipWhitespace, ReadlnTurbo, Advance, CursorOf, Apart, Leaves;
    var f := op.f;
    OffReady(s, f, g, deep);
    var r := FileReady(s, f);
    if r.ready {
      forall c
        ensures Off(s, PutCursor(r.s, f, c), f, g, deep) && IsOpen(PutCursor(r.s, f, c), f)
        ensures Off(s, TrapOnStreamError(PutCursor(r.s, f, c), f, false), f, g, deep)
      {
        OffCursor(s, r.s, f, g, c, deep);
        OffEdits(s, PutCursor(r.s, f, c), f, g, 0, false, deep);
      }
    }
  }

  lemma {:induction false} OffNumber(s: Sys, f: nat, parse: seq<int> -> Option<int>, g: nat, deep: bool)
    requires Apart(s, f, g, deep)
    ensures Leaves(s, ReadNumber(s, f, parse).s, g, deep)
  {
    hide FileReady, PutCursor, TrapOnStreamError, SkipWhitespace, TakeToken, CursorOf, Apart, Leaves, SetIfClear, Prime;
    OffReady(s, f, g, deep);
    var r := FileReady(s, f);
    if r.ready {
      var c := CursorOf(r.s, f);
      var t := TakeToken(SkipWhitespace(if c.buf == UNINIT then Prime(c) else c, true)).c;
      OffCursor(s, r.s, f, g, t, deep);
      OffEdits(s, PutCursor(r.s, f, t), f, g, 0, false, deep);
      OffEdits(s, TrapOnStreamError(PutCursor(r.s, f, t), f, false), f, g, 106, false, deep);
    }
  }

  lemma {:induction false} OffEof(s: Sys, f: nat, g: nat, deep: bool)
    requires Apart(s, f, g, deep)
    ensures Leaves(s, Eof(s, f).s, g, deep)
  {
    hide EnsurePrimed;
    OffReady(s, f, g, deep);
    var r := FileReady(s, f);
    if r.ready {
      OffReady(r.s, f, g, deep);
      OffReady(FilePos(r.s, f).s, f, g, deep);
      OffCursor(s, r.s, f, g, EnsurePrimed(CursorOf(r.s, f), true), deep);
    }
  }

  lemma {:induction false} OffBlockRead(s: Sys, f: nat, n: int, has: bool, g: nat, deep: bool)
    requires Apart(s, f, g, deep)
    ensures Leaves(s, BlockRead(s, f, n, has).s, g, deep)
  {
    hide FileReady, Fread, SetIfClear, DropWindow, Apart;
    OffReady(s, f, g, deep);
    var r := FileReady(s, f);
    if r.ready && n > 0 && Rec(r.s, f).recSize > 0 {
      var want := n * Rec(r.s, f).recSize;
      OffFread(s, r.s, f, g, want, deep);
      var t := Fread(r.s, f, want).s;
      OffDrop(s, t, f, g, deep);
      OffCode(s, DropWindow(t, f), f, g, 100, deep);
    }
  }

  lemma {:induction false} OffBlockWrite(s: Sys, f: nat, d: seq<byte>, n: int, has: bool, os: Os, g: nat, deep: bool)
    requires Apart(s, f, g, deep)
    ensures Leaves(s, BlockWrite(s, f, d, n, has, os).s, g, deep)
  {
    hide FileReady, Fwrite, TrapOnStreamError, SetIfClear, DropWindow, Apart;
    OffReady(s, f, g, deep);
    var r := FileReady(s, f);
    if r.ready && n > 0 && Rec(r.s, f).recSize > 0 {
      OffFwrite(s, r.s, f, g, d, os, deep);
      var t := Fwrite(r.s, f, d, os).s;
      OffEdits(s, t, f, g, 0, true, deep);
      var u := TrapOnStreamError(t, f, true);
      OffDrop(s, u, f, g, deep);
      OffCode(s, DropWindow(u, f), f, g, 101, deep);
    }
  }

  lemma {:induction false} OffReadBinary(s: Sys, f: nat, n: nat, g: nat, deep: bool)
    requires Apart(s, f, g, deep)
    ensures Leaves(s, ReadBinary(s, f, n).s, g, deep)
  {
    hide FileReady, Fread, PutCursor, TrapOnStreamError, SetIfClear, Prime, CursorOf, Apart, Filled;
    OffReady(s, f, g, deep);
    var r := FileReady(s, f);
    if r.ready {
      OffFread(s, r.s, f, g, n, deep);
      ReadBinaryOpen(r.s, f, n);
      var t := TrapOnStreamError(Fread(r.s, f, n).s, f, false);
      OffEdits(s, Fread(r.s, f, n).s, f, g, 0, false, deep);
      OffEdits(s, t, f, g, 100, false, deep);
      var u := if Fread(r.s, f, n).n < n || n == 0 then SetIfClear(t, 100) else t;
      OffCursor(s, u, f, g, Prime(CursorOf(u, f)), deep);
    }
  }

  lemma {:induction false} OffWrites(s: Sys, f: nat, d: seq<byte>, os: Os, g: nat, deep: bool)
    requires Apart(s, f, g, deep)
    ensures Leaves(s, WriteText(s, f, d, os), g, deep) && Leaves(s, WriteBinary(s, f, d, os), g, deep)
  {
    hide FileReady, Fwrite, TrapOnStreamError, DropWindow, Apart;
    OffReady(s, f, g, deep);
    var r := FileReady(s, f);
    if r.ready {
      OffFwrite(s, r.s, f, g, d, os, deep);
      var t := Fwrite(r.s, f, d, os).s;
      OffEdits(s, t, f, g, 0, true, deep);
      OffEdits(s, TrapOnStreamError(t, f, true), f, g, 0, true, deep);
    }
  }

  lemma {:induction false} OffPositions(s: Sys, f: nat, os: Os, g: nat, deep: bool)
    requires Apart(s, f, g, deep)
    ensures Leaves(s, FilePos(s, f).s, g, deep) && Leaves(s, FileSize(s, f).s, g, deep) && Leaves(s, Flush(s, f, os), g, deep)
  {
    hide FileReady;
    OffReady(s, f, g, deep);
  }

  lemma {:induction false} OffSeek(s: Sys, f: nat, n: int, g: nat, deep: bool)
    requires Apart(s, f, g, deep)
    ensures Leaves(s, Seek(s, f, n), g, deep)
  {
    hide FileReady;
    OffReady(s, f, g, deep);
  }

  lemma {:induction false} OffTruncate(s: Sys, f: nat, os: Os, g: nat, deep: bool)
    requires Apart(s, f, g, deep)
    ensures Leaves(s, Truncate(s, f, os), g, deep)
  {
    hide FileReady;
    OffReady(s, f, g, deep);
  }

  lemma {:induction false} OffErase(s: Sys, f: nat, os: Os, g: nat, deep: bool)
    ensures Leaves(s, Erase(s, f, os), g, deep)
  {
  }

  lemma {:induction false} OffRename(s: Sys, f: nat, name: string, os: Os, g: nat, deep: bool)
    requires f != g
    ensures Leaves(s, Rename(s, f, name, os), g, deep)
  {
  }

  lemma ApartNames(s: Sys, f: nat, g: nat, deep: bool)
    ensures Apart(s, f, g, deep) ==> f != g
  {
  }

  lemma {:induction false} OffMoves(s: Sys, op: Op, g: nat, deep: bool)
    requires Moves(op) && (OnFile(op) ==> Apart(s, op.f, g, deep))
    ensures Leaves(s, Step(s, op).s, g, deep)
  {
    ApartNames(s, if OnFile(op) then op.f else g + 1, g, deep);
    hide Apart, FilePos, FileSize, Seek, Truncate, Flush, BlockRead, BlockWrite, ReadBinary, WriteText, WriteBinary, Erase, Rename,
         Eof, Eoln, SeekEofOrEoln, Readln, ReadChar, ReadNumber;
    if s.exit.None? {
      match op
      case OpIoResult =>
      case OpIoCheck =>
      case OpEof(f) => OffEof(s, f, g, deep);
      case OpReadNumber(f, parse) => OffNumber(s, f, parse, g, deep);
      case OpBlockRead(f, n, has) => OffBlockRead(s, f, n, has, g, deep);
      case OpBlockWrite(f, d, n, has, o) => OffBlockWrite(s, f, d, n, has, o, g, deep);
      case OpReadBinary(f, n) => OffReadBinary(s, f, n, g, deep);
      case OpWriteText(f, d, o) => OffWrites(s, f, d, o, g, deep);
      case OpWriteBinary(f, d, o) => OffWrites(s, f, d, o, g, deep);
      case OpEoln(_) => OffText(s, op, g, deep);
      case OpSeekEof(_) => OffText(s, op, g, deep);
      case OpSeekEoln(_) => OffText(s, op, g, deep);
      case OpReadln(_) => OffText(s, op, g, deep);
      case OpReadChar(_) => OffText(s, op, g, deep);
      case OpTruncate(f, o) => OffTruncate(s, f, o, g, deep);
      case OpErase(f, o) => OffErase(s, f, o, g, deep);
      case OpRename(f, name, o) => OffRename(s, f, name, o, g, deep);
      case OpFlush(f, o) => OffPositions(s, f, o, g, deep);
      case OpSeek(f, n) => OffSeek(s, f, n, g, deep);
      case OpFilePos(f) => OffPositions(s, f, Os(0, false, 0), g, deep);
      case OpFileSize(f) => OffPositions(s, f, Os(0, false, 0), g, deep);
    }
  }

  // ---- opening and closing ----

  lemma {:induction false} OffClose(s: Sys, f: nat, g: nat, deep: bool)
    requires StreamsOwned(s) && Apart(s, f, g, deep)
    ensures Leaves(s, CloseStream(s, f), g, deep) && !IsOpen(CloseStream(s, f), f)
  {
  }

  lemma {:induction false} OffAttach(s: Sys, f: nat, g: nat, ino: nat, r: bool, w: bool, a: bool, readable: nat, mode: Mode, deep: bool)
    requires StreamsOwned(s) && f != g
    ensures Leaves(s, Opened(Attach(s, f, ino, r, w, a), f, readable, mode), g, deep)
    ensures var t := Opened(Attach(s, f, ino, r, w, a), f, readable, mode); IsOpen(t, f) && InoOf(t, f) == ino
  {
    if IsOpen(s, g) {
      assert g in s.files && Fp(s, g) in s.streams;
    }
  }

  lemma {:induction false} OffStd(s: Sys, f: nat, g: nat, h: nat, readable: nat, mode: Mode, deep: bool)
    requires f != g
    ensures Leaves(s, Opened(AttachStd(s, f, h), f, readable, mode), g, deep)
  {
  }

  lemma LeavesCode(s: Sys, t: Sys, g: nat, code: int, deep: bool)
    requires Leaves(s, t, g, deep)
    ensures Leaves(s, SetIfClear(t, code), g, deep)
  {
  }

  lemma {:induction false} OffReset(s: Sys, f: nat, os: Os, g: nat, deep: bool)
    requires StreamsOwned(s) && Apart(s, f, g, deep) && !Pending(s)
    ensures Leaves(s, Reset(s, f, os), g, deep)
  {
    hide StreamsOwned, Leaves, CloseStream, Attach, AttachStd, Opened, Apart;
    ApartNames(s, f, g, deep);
    OffClose(s, f, g, deep);
    CloseStreamOwned(s, f);
    var t := CloseStream(s, f);
    LeavesRefl(t, g, deep);
    var name := Rec(t, f).name;
    var m := EffectiveFileMode(t, f);
    if name == "" {
      OffStd(t, f, g, STDIN, 1, Input, deep);
    } else if OpenError(t, name, os) != 0 {
      LeavesCode(t, t, g, PosixToRunError(OpenError(t, name, os)), deep);
    } else if os.isDir {
      LeavesCode(t, t, g, 5, deep);
    } else {
      OffAttach(t, f, g, t.dir[name], m != 1, m == 1 || m == 2, false, if m == 1 then 0 else if m == 2 then 2 else 1, Input, deep);
    }
    LeavesTrans(s, t, Reset(s, f, os), g, deep);
  }

  lemma {:induction false} OffAppend(s: Sys, f: nat, os: Os, g: nat, deep: bool)
    requires StreamsOwned(s) && Apart(s, f, g, deep) && !Pending(s)
    ensures Leaves(s, F.Append(s, f, os), g, deep)
  {
    hide StreamsOwned, Leaves, CloseStream, Attach, AttachStd, Opened, Apart;
    ApartNames(s, f, g, deep);
    OffClose(s, f, g, deep);
    CloseStreamOwned(s, f);
    var t := CloseStream(s, f);
    LeavesRefl(t, g, deep);
    var name := Rec(t, f).name;
    if name == "" {
      OffStd(t, f, g, STDOUT, 0, Output, deep);
    } else if OpenError(t, name, os) != 0 {
      LeavesCode(t, t, g, PosixToRunError(OpenError(t, name, os)), deep);
    } else {
      OffAttach(t, f, g, t.dir[name], false, true, true, 0, Output, deep);
    }
    LeavesTrans(s, t, F.Append(s, f, os), g, deep);
  }

  /** The disk once a name has been created or emptied. */
  function Emptied(t: Sys, name: string): Sys {
    if name in t.dir then t.(inodes := t.inodes[t.dir[name] := []])
    else t.(dir := t.dir[name := t.nextIno], inodes := t.inodes[t.nextIno := []], nextIno := t.nextIno + 1)
  }

  lemma {:induction false} OffEmptied(t: Sys, name: string, g: nat, deep: bool)
    ensures var u := Emptied(t, name);
            name in u.dir && (StreamsOwned(t) ==> StreamsOwned(u))
            && ((deep && IsOpen(t, g) && u.dir[name] == InoOf(t, g)) || Leaves(t, u, g, deep))
  {
    if StreamsOwned(t) {
      SameHoldersOwned(t, Emptied(t, name));
    }
  }

  lemma {:induction false} OffRewrite(s: Sys, f: nat, os: Os, g: nat, deep: bool)
    requires StreamsOwned(s) && Apart(s, f, g, deep) && !Pending(s)
    requires var t := Rewrite(s, f, os);
             deep && IsOpen(t, f) && IsOpen(t, g) ==> InoOf(t, f) != InoOf(t, g)
    ensures Leaves(s, Rewrite(s, f, os), g, deep)
  {
    hide StreamsOwned, CloseStream, Attach, AttachStd, Opened, Apart, Leaves, Emptied;
    ApartNames(s, f, g, deep);
    OffClose(s, f, g, deep);
    CloseStreamOwned(s, f);
    var t := CloseStream(s, f);
    LeavesRefl(t, g, deep);
    var name := Rec(t, f).name;
    var rw := Rec(t, f).recSize > 0;
    if name == "" {
      OffStd(t, f, g, STDOUT, 0, Output, deep);
    } else if os.errno != 0 {
      LeavesCode(t, t, g, PosixToRunError(os.errno), deep);
    } else {
      var u := Emptied(t, name);
      OffEmptied(t, name, g, deep);
      RewriteUnfolds(s, f, os);
      OffAttach(u, f, g, u.dir[name], rw, true, false, if rw then 2 else 0, Output, deep);
      SameOpen(t, name, g);
      StillOpen(u, Rewrite(s, f, os), g, deep);
      LeavesTrans(t, u, Rewrite(s, f, os), g, deep);
    }
    LeavesTrans(s, t, Rewrite(s, f, os), g, deep);
  }

  lemma {:induction false} RewriteUnfolds(s: Sys, f: nat, os: Os)
    requires !Pending(s) && os.errno == 0 && Rec(CloseStream(s, f), f).name != ""
    ensures var t := CloseStream(s, f);
            var rw := Rec(t, f).recSize > 0;
            var u := Emptied(t, Rec(t, f).name);
            && Rec(t, f).name in u.dir
            && Rewrite(s, f, os)
               == Opened(Attach(u, f, u.dir[Rec(t, f).name], rw, true, false), f, if rw then 2 else 0, Output)
  {
    hide CloseStream, Attach, Opened;
  }

  lemma SameOpen(t: Sys, name: string, g: nat)
    ensures IsOpen(Emptied(t, name), g) == IsOpen(t, g)
    ensures IsOpen(t, g) ==> InoOf(Emptied(t, name), g) == InoOf(t, g)
  {
  }

  lemma StillOpen(s: Sys, t: Sys, g: nat, deep: bool)
    requires Leaves(s, t, g, deep)
    ensures IsOpen(t, g) == IsOpen(s, g) && (IsOpen(s, g) ==> InoOf(t, g) == InoOf(s, g))
  {
  }

  /** A file opened on something that `g` is not on leaves `g` alone. */
  lemma {:induction false} OffOpens(s: Sys, t: Sys, f: nat, os: Os, g: nat, deep: bool)
    requires StreamsOwned(s) && Apart(s, f, g, deep) && !Pending(s)
    requires t == Reset(s, f, os) || t == Rewrite(s, f, os) || t == F.Append(s, f, os)
    requires deep && IsOpen(t, f) && IsOpen(t, g) ==> InoOf(t, f) != InoOf(t, g)
    ensures Leaves(s, t, g, deep)
  {
    hide StreamsOwned, Apart, Leaves, Reset, Rewrite, F.Append;
    if t == Reset(s, f, os) {
      OffReset(s, f, os, g, deep);
    } else if t == Rewrite(s, f, os) {
      OffRewrite(s, f, os, g, deep);
    } else {
      OffAppend(s, f, os, g, deep);
    }
  }

  lemma {:induction false} OffSized(s: Sys, n: int, f: nat, g: nat, deep: bool)
    requires StreamsOwned(s) && Apart(s, f, g, deep)
    ensures var u := WithRecSize(s, f, n);
            StreamsOwned(u) && Apart(u, f, g, deep) && Leaves(s, u, g, deep) && (Pending(u) <==> Pending(s))
  {
    RecOwned(s, f, Rec(s, f).(recSize := n));
  }

  lemma {:induction false} LeavesTrans(s: Sys, t: Sys, u: Sys, g: nat, deep: bool)
    requires Leaves(s, t, g, deep) && Leaves(t, u, g, deep)
    ensures Leaves(s, u, g, deep)
  {
  }

  lemma {:induction false} OffOpening(s: Sys, op: Op, g: nat, deep: bool)
    requires StreamsOwned(s) && s.exit.None? && !Moves(op) && Apart(s, op.f, g, deep)
    requires var t := Step(s, op).s;
             deep && IsOpen(t, op.f) && IsOpen(t, g) ==> InoOf(t, op.f) != InoOf(t, g)
    ensures Leaves(s, Step(s, op).s, g, deep)
  {
    hide StreamsOwned, Apart, Leaves, Reset, Rewrite, Append, CloseStream, Assign, Close;
    var f := op.f;
    PendingOpens(s, f, if op.OpReset? || op.OpRewrite? || op.OpAppend? then op.os else Os(0, false, 0));
    LeavesRefl(s, g, deep);
    match op
    case OpReset(_, os) => if !Pending(s) { OffOpens(s, Reset(s, f, os), f, os, g, deep); }
    case OpRewrite(_, os) => if !Pending(s) { OffOpens(s, Rewrite(s, f, os), f, os, g, deep); }
    case OpAppend(_, os) => if !Pending(s) { OffOpens(s, Append(s, f, os), f, os, g, deep); }
    case OpResetSized(_, n, os) => OffSizedOpen(s, op, n, os, g, deep);
    case OpRewriteSized(_, n, os) => OffSizedOpen(s, op, n, os, g, deep);
    case OpAssign(_, name) => OffAssign(s, f, name, g, deep);
    case OpClose(_) => OffCloses(s, f, g, deep);
  }

  lemma LeavesRefl(s: Sys, g: nat, deep: bool)
    ensures Leaves(s, s, g, deep)
  {
  }

  lemma {:induction false} OffAssign(s: Sys, f: nat, name: string, g: nat, deep: bool)
    requires StreamsOwned(s) && Apart(s, f, g, deep)
    ensures Leaves(s, Assign(s, f, name), g, deep)
  {
    hide StreamsOwned, CloseStream;
    OffClose(s, f, g, deep);
  }

  lemma {:induction false} OffCloses(s: Sys, f: nat, g: nat, deep: bool)
    requires StreamsOwned(s) && Apart(s, f, g, deep)
    ensures Leaves(s, Close(s, f), g, deep)
  {
    hide StreamsOwned, CloseStream, FileReady, SameHolders, Apart;
    ApartNames(s, f, g, deep);
    OffReady(s, f, g, deep);
    ReadyHolders(s, f);
    SameHoldersOwned(s, FileReady(s, f).s);
    OffClose(FileReady(s, f).s, f, g, deep);
  }

  lemma {:induction false} OffSizedOpen(s: Sys, op: Op, n: int, os: Os, g: nat, deep: bool)
    requires OnFile(op) && (op == OpResetSized(op.f, n, os) || op == OpRewriteSized(op.f, n, os))
    requires StreamsOwned(s) && s.exit.None? && Apart(s, op.f, g, deep)
    requires var t := Step(s, op).s;
             deep && IsOpen(t, op.f) && IsOpen(t, g) ==> InoOf(t, op.f) != InoOf(t, g)
    ensures Leaves(s, Step(s, op).s, g, deep)
  {
    hide StreamsOwned, Apart, Reset, Rewrite, CloseStream;
    var f := op.f;
    OffClose(s, f, g, deep);
    OffSized(s, n, f, g, deep);
    var u := WithRecSize(s, f, n);
    if !Pending(s) && n != 0 {
      OffOpens(u, Step(s, op).s, f, os, g, deep);
      LeavesTrans(s, u, Step(s, op).s, g, deep);
    }
  }

  // ---- every step and every run ----

  lemma {:induction false} UnsharedApart(s: Sys, f: nat, g: nat)
    requires Unshared(s) && f != g
    ensures Apart(s, f, g, true)
  {
    if IsOpen(s, f) && IsOpen(s, g) {
      assert InoOf(s, f) != InoOf(s, g);
    }
  }

  /** A step leaves every file it does not name as it is. */
  lemma {:induction false} OthersKept(s: Sys, op: Op, g: nat)
    requires StreamsOwned(s) && Unshared(s) && Unshared(Step(s, op).s) && (OnFile(op) ==> op.f != g)
    ensures Leaves(s, Step(s, op).s, g, true)
  {
    hide StreamsOwned, Step;
    if OnFile(op) {
      UnsharedApart(s, op.f, g);
    }
    if Moves(op) {
      OffMoves(s, op, g, true);
    } else if s.exit.None? {
      UnsharedApart(Step(s, op).s, op.f, g);
      OffOpening(s, op, g, true);
    } else {
      Stopped(s, op);
      LeavesRefl(s, g, true);
    }
  }

  lemma Stopped(s: Sys, op: Op)
    requires s.exit.Some?
    ensures Step(s, op).s == s
  {
  }

  /** Along a run no stored file is open twice, and no text write goes under a window. */
  ghost predicate Orderly(s: Sys, ops: seq<Op>)
    decreases |ops|
  {
    Unshared(s) && (ops != [] ==> !WritesUnderWindow(s, ops[0]) && Orderly(Step(s, ops[0]).s, ops[1..]))
  }

  predicate Names(ops: seq<Op>, g: nat) {
    exists k :: 0 <= k < |ops| && OnFile(ops[k]) && ops[k].f == g
  }

  /** A run that never names a file leaves its record, position and text. */
  lemma {:induction false} RunLeaves(s: Sys, ops: seq<Op>, g: nat)
    requires StreamsOwned(s) && Orderly(s, ops) && !Names(ops, g)
    ensures Leaves(s, Run(s, ops), g, true)
    decreases |ops|
  {
    hide StreamsOwned, Step, Leaves;
    LeavesRefl(s, g, true);
    if ops != [] {
      var t := Step(s, ops[0]).s;
      assert Orderly(t, ops[1..]);
      OthersKept(s, ops[0], g);
      StepOwned(s, ops[0]);
      assert forall k | 0 <= k < |ops| - 1 :: ops[1..][k] == ops[k + 1];
      RunLeaves(t, ops[1..], g);
      LeavesTrans(s, t, Run(t, ops[1..]), g, true);
    }
  }

  lemma {:induction false} LeavesHonest(s: Sys, t: Sys, g: nat)
    requires Leaves(s, t, g, true) && Honest(s, g)
    ensures Honest(t, g)
  {
  }

  /** Over every orderly run, no file's window ever shows a byte that is not at its
    * position, whichever files the operations name. */
  lemma {:induction false} RunWindows(s: Sys, ops: seq<Op>)
    requires StreamsOwned(s) && Orderly(s, ops) && forall g :: Honest(s, g)
    ensures forall g :: Honest(Run(s, ops), g)
    decreases |ops|
  {
    hide StreamsOwned, Step, Honest, Leaves, WritesUnderWindow;
    if ops != [] {
      var (op, t) := (ops[0], Step(s, ops[0]).s);
      assert Orderly(t, ops[1..]);
      StepOwned(s, op);
      forall g
        ensures Honest(t, g)
      {
        if OnFile(op) && op.f == g {
          WindowKept(s, op);
        } else {
          OthersKept(s, op, g);
          LeavesHonest(s, t, g);
        }
      }
      RunWindows(t, ops[1..]);
    }
  }

  // ---- two variables on one stored file ----

  /** A file on disk: no other file holds its stream. */
  predicate OwnStream(s: Sys, g: nat) {
    IsOpen(s, g) && Fp(s, g) > STDOUT
  }

  lemma {:induction false} OwnApart(s: Sys, f: nat, g: nat)
    requires StreamsOwned(s) && OwnStream(s, g) && f != g
    ensures Apart(s, f, g, false)
  {
    if IsOpen(s, f) {
      assert f in s.files && g in s.files;
    }
  }

  /** Even then a step leaves the record and the position of a file it does not name. */
  lemma {:induction false} OthersStay(s: Sys, op: Op, g: nat)
    requires StreamsOwned(s) && OwnStream(s, g) && (OnFile(op) ==> op.f != g)
    ensures Leaves(s, Step(s, op).s, g, false)
  {
    hide StreamsOwned, Step, OwnStream;
    if OnFile(op) {
      OwnApart(s, op.f, g);
    }
    if Moves(op) {
      OffMoves(s, op, g, false);
    } else if s.exit.None? {
      OffOpening(s, op, g, false);
    } else {
      Stopped(s, op);
      LeavesRefl(s, g, false);
    }
  }

  function ByteAt(c: seq<byte>, p: nat): int {
    if p < |c| then c[p] else EOF
  }

  /** A step on another file leaves a window stale exactly when the window is filled and
    * the step changes the byte it is in front of. */
  lemma {:induction false} StaleIff(s: Sys, op: Op, g: nat)
    requires StreamsOwned(s) && OwnStream(s, g) && Honest(s, g) && OnFile(op) && op.f != g
    ensures var (t, st) := (Step(s, op).s, StreamOf(s, Fp(s, g)));
            && IsOpen(t, g)
            && (!Honest(t, g) <==>
                  && Rec(s, g).buf != UNINIT && st.canRead
                  && ByteAt(Content(t, st.ino), st.pos) != ByteAt(Content(s, st.ino), st.pos))
  {
    OthersStay(s, op, g);
    hide StreamsOwned, Step;
  }

  /** A Rewrite of the same stored file does so to every window that shows a byte. */
  lemma {:induction false} RewriteStales(s: Sys, f: nat, os: Os, g: nat)
    requires StreamsOwned(s) && OwnStream(s, g) && Honest(s, g) && f != g && InoOf(s, g) < s.nextIno
    ensures !Honest(Step(s, OpRewrite(f, os)).s, g) <==>
              && !Pending(s) && s.exit.None? && os.errno == 0
              && Rec(s, f).name in s.dir && Rec(s, f).name != "" && s.dir[Rec(s, f).name] == InoOf(s, g)
              && Rec(s, g).buf !in {UNINIT, EOF}
  {
    StaleIff(s, OpRewrite(f, os), g);
    RewriteContent(s, f, os, InoOf(s, g));
    hide Rewrite, StreamsOwned;
  }

  lemma {:induction false} RewriteContent(s: Sys, f: nat, os: Os, ino: nat)
    requires ino < s.nextIno
    ensures Content(Step(s, OpRewrite(f, os)).s, ino)
            == if !Pending(s) && s.exit.None? && os.errno == 0 && Rec(s, f).name in s.dir && Rec(s, f).name != ""
                  && s.dir[Rec(s, f).name] == ino then []
               else Content(s, ino)
  {
  }

  /** The byte a write of `d` at `p` leaves at `q`. */
  function ByteAfter(c: seq<byte>, p: nat, d: seq<byte>, q: nat): int {
    if d == [] then ByteAt(c, q)
    else if p <= q < p + |d| then d[q - p]
    else if |c| <= q < p then 0
    else ByteAt(c, q)
  }

  lemma {:induction false} SplicedByte(c: seq<byte>, p: nat, d: seq<byte>, q: nat)
    ensures ByteAt(Splice(c, p, d), q) == ByteAfter(c, p, d, q)
  {
  }

  /** What a write to an open file stores, and where. */
  function Written(s: Sys, f: nat, d: seq<byte>, os: Os): (nat, seq<byte>)
    requires IsOpen(s, f)
  {
    var st := StreamOf(s, Fp(s, f));
    var n := if os.errno == 0 || os.done > |d| then |d| else os.done;
    (if st.append then |Content(s, st.ino)| else st.pos, if st.canWrite then d[..n] else [])
  }

  /** A write to the same stored file does so exactly to a window over a byte that the
    * write makes another. */
  lemma {:induction false} WriteStales(s: Sys, f: nat, d: seq<byte>, os: Os, g: nat)
    requires StreamsOwned(s) && OwnStream(s, g) && Honest(s, g) && f != g
    requires !Pending(s) && s.exit.None? && IsOpen(s, f) && InoOf(s, f) == InoOf(s, g)
    ensures var st := StreamOf(s, Fp(s, g));
            var (c, w) := (Content(s, st.ino), Written(s, f, d, os));
            !Honest(Step(s, OpWriteBinary(f, d, os)).s, g) <==>
              && Rec(s, g).buf != UNINIT && st.canRead
              && ByteAfter(c, w.0, w.1, st.pos) != ByteAt(c, st.pos)
  {
    var st := StreamOf(s, Fp(s, g));
    var (c, w) := (Content(s, st.ino), Written(s, f, d, os));
    StaleIff(s, OpWriteBinary(f, d, os), g);
    WriteContent(s, f, d, os);
    SplicedByte(c, w.0, w.1, st.pos);
    hide StreamsOwned, Splice, Written;
  }

  lemma {:induction false} WriteContent(s: Sys, f: nat, d: seq<byte>, os: Os)
    requires !Pending(s) && s.exit.None? && IsOpen(s, f)
    ensures var (ino, w) := (InoOf(s, f), Written(s, f, d, os));
            Content(Step(s, OpWriteBinary(f, d, os)).s, ino) == Splice(Content(s, ino), w.0, w.1)
  {
  }

  /** The file "a" holding one byte, open to read under variable 0 with that byte in the
    * window, and assigned to variable 1. */
  function Shared(): Sys {
    Sys(0, 2, None,
        map[0 := FileRec(Some(2), 65, false, 1, "a", Input, 0), 1 := FileRec(None, UNINIT, false, 0, "a", Closed, 0)],
        map[STDIN := Stream(STDIN, 0, true, false, false, 0), STDOUT := Stream(STDOUT, 0, false, true, false, 0),
            2 := Stream(2, 0, true, false, false, 0)], 3,
        map["a" := 2], map[2 := [65]], 3)
  }

  /** Rewriting it under variable 1 leaves variable 0's window showing what is gone. */
  lemma {:induction false} SharedFileFails()
    ensures StreamsOwned(Shared()) && Honest(Shared(), 0)
    ensures !Honest(Step(Shared(), OpRewrite(1, Os(0, false, 0))).s, 0)
  {
    RewriteStales(Shared(), 1, Os(0, false, 0), 0);
  }
}
