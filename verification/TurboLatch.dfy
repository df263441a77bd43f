/** Whole runs of Turbo file operations: the pending-error latch, and who owns
  * which stream. */
module TurboLatch {
  import opened Bytes
  import opened TextWindow
  import opened TurboFiles

  // ---- the latch ----

  /** The operations that read InOutRes and clear it. */
  predicate Collects(op: Op) { op.OpIoResult? || op.OpIoCheck? }

  predicate NoneCollects(ops: seq<Op>) {
    forall k | 0 <= k < |ops| :: !Collects(ops[k])
  }

  predicate AsksForEnd(op: Op) { op.OpEof? || op.OpEoln? || op.OpSeekEof? || op.OpSeekEoln? }

  function Assigns(ops: seq<Op>): seq<Op> {
    if ops == [] then []
    else (if ops[0].OpAssign? then [ops[0]] else []) + Assigns(ops[1..])
  }

  /** While an error is pending, one step does nothing at all unless it is an
    * Assign, delivers nothing, and the tests for an end all answer true. */
  lemma {:induction false} SuppressedStep(s: Sys, op: Op)
    requires Pending(s) && s.exit.None? && !Collects(op)
    ensures !op.OpAssign? ==> Step(s, op).s == s
    ensures Step(s, op).n == (if AsksForEnd(op) then 1 else 0) && Step(s, op).data == []
    ensures var t := Step(s, op).s;
            t.inOutRes == s.inOutRes && t.exit.None? && t.dir == s.dir && t.inodes == s.inodes
  {
  }

  /** Over any run without an IOResult, a pending error keeps its code, nothing
    * stored changes, and the state is what the run's Assigns alone would leave. */
  lemma {:induction false} SuppressedRun(s: Sys, ops: seq<Op>)
    requires Pending(s) && s.exit.None? && NoneCollects(ops)
    ensures var t := Run(s, ops);
            && t == Run(s, Assigns(ops))
            && t.inOutRes == s.inOutRes && t.exit.None?
            && t.dir == s.dir && t.inodes == s.inodes
    ensures forall f | f !in AssignedFiles(ops) :: Rec(Run(s, ops), f) == Rec(s, f)
    decreases |ops|
  {
    if ops != [] {
      SuppressedStep(s, ops[0]);
      var t := Step(s, ops[0]).s;
      SuppressedRun(t, ops[1..]);
      if ops[0].OpAssign? {
        assert Assigns(ops)[1..] == Assigns(ops[1..]);
      } else {
        assert Assigns(ops) == Assigns(ops[1..]);
      }
    }
  }

  function AssignedFiles(ops: seq<Op>): set<nat> {
    set k | 0 <= k < |ops| && ops[k].OpAssign? :: ops[k].f
  }

  /** The code the first failing operation of a run raises, or 0. */
  function FirstFailure(s: Sys, ops: seq<Op>): int
    decreases |ops|
  {
    if Pending(s) || ops == [] then s.inOutRes else FirstFailure(Step(s, ops[0]).s, ops[1..])
  }

  lemma {:induction false} ExitedRun(s: Sys, ops: seq<Op>)
    requires s.exit.Some?
    ensures Run(s, ops) == s
    decreases |ops|
  {
    if ops != [] {
      ExitedRun(s, ops[1..]);
    }
  }

  /** However a run goes on after it, IOResult answers the earliest failure's
    * code, and the next IOResult answers 0. */
  lemma {:induction false} IoResultIsEarliest(s: Sys, ops: seq<Op>)
    requires NoneCollects(ops)
    ensures var t := Run(s, ops);
            t.exit.None? ==>
              && Step(t, OpIoResult).n == FirstFailure(s, ops)
              && !Pending(Step(t, OpIoResult).s)
              && Step(Step(t, OpIoResult).s, OpIoResult).n == 0
    decreases |ops|
  {
    if s.exit.Some? {
      ExitedRun(s, ops);
    } else if Pending(s) {
      SuppressedRun(s, ops);
    } else if ops != [] {
      IoResultIsEarliest(Step(s, ops[0]).s, ops[1..]);
    }
  }

  /** What an Assign recorded while suppressed is what a Reset opens once the error is collected. */
  lemma {:induction false} AssignSurvivesSuppression(s: Sys, f: nat, name: string, os: Os)
    requires s.exit.None? && 0 < |name| <= 511 && name in s.dir && os.errno == 0 && !os.isDir
    ensures var t := Step(Step(Step(s, OpAssign(f, name)).s, OpIoResult).s, OpReset(f, os)).s;
            IsOpen(t, f) && StreamOf(t, Fp(t, f)).ino == s.dir[name] && StreamOf(t, Fp(t, f)).pos == 0
  {
  }

  // ---- streams ----

  /** Every open file holds a stream that exists, and only the standard
    * streams are ever held by two files. */
  ghost predicate StreamsOwned(s: Sys) {
    && STDIN in s.streams && STDOUT in s.streams
    && s.nextHandle > STDOUT
    && (forall h | h in s.streams :: h < s.nextHandle)
    && (forall f | f in s.files && s.files[f].fp.Some? :: s.files[f].fp.value in s.streams)
    && (forall f, g | f in s.files && g in s.files && f != g
                      && s.files[f].fp.Some? && s.files[f].fp.value > STDOUT ::
         s.files[g].fp != s.files[f].fp)
  }

  /** What an operation on an open stream may do: move it, and change the record's other fields. */
  ghost predicate SameHolders(s: Sys, t: Sys) {
    && t.nextHandle == s.nextHandle
    && t.streams.Keys == s.streams.Keys
    && (forall f :: Rec(t, f).fp == Rec(s, f).fp)
  }

  lemma {:induction false} SameHoldersOwned(s: Sys, t: Sys)
    requires StreamsOwned(s) && SameHolders(s, t)
    ensures StreamsOwned(t)
  {
    forall f | f in t.files && t.files[f].fp.Some? ensures t.files[f].fp.value in t.streams {
      assert Rec(t, f).fp == Rec(s, f).fp;
    }
    forall f, g | f in t.files && g in t.files && f != g && t.files[f].fp.Some? && t.files[f].fp.value > STDOUT
      ensures t.files[g].fp != t.files[f].fp
    {
      assert Rec(t, f).fp == Rec(s, f).fp && Rec(t, g).fp == Rec(s, g).fp;
    }
  }

  lemma {:induction false} CloseStreamOwned(s: Sys, f: nat)
    requires StreamsOwned(s)
    ensures var t := CloseStream(s, f);
            StreamsOwned(t) && !IsOpen(t, f) && t.nextHandle == s.nextHandle
  {
  }

  lemma {:induction false} AttachOwned(s: Sys, f: nat, ino: nat, r: bool, w: bool, a: bool)
    requires StreamsOwned(s) && !IsOpen(s, f)
    ensures StreamsOwned(Attach(s, f, ino, r, w, a))
  {
  }

  lemma {:induction false} AttachStdOwned(s: Sys, f: nat, h: nat)
    requires StreamsOwned(s) && !IsOpen(s, f) && h <= STDOUT
    ensures StreamsOwned(AttachStd(s, f, h))
  {
  }

  lemma {:induction false} RecOwned(s: Sys, f: nat, r: FileRec)
    requires StreamsOwned(s) && r.fp == Rec(s, f).fp
    ensures StreamsOwned(PutRec(s, f, r))
  {
    SameHoldersOwned(s, PutRec(s, f, r));
  }

  lemma {:induction false} OpensOwned(s: Sys, f: nat, os: Os)
    requires StreamsOwned(s)
    ensures StreamsOwned(Reset(s, f, os)) && StreamsOwned(Rewrite(s, f, os)) && StreamsOwned(Append(s, f, os))
  {
    hide StreamsOwned, CloseStream, Attach, AttachStd;
    if !Pending(s) {
      CloseStreamOwned(s, f);
      var t := CloseStream(s, f);
      ResetOwned(s, t, f, os);
      RewriteOwned(s, t, f, os);
      AppendOwned(s, t, f, os);
    }
  }

  lemma {:induction false} OpenedOwned(s: Sys, f: nat, readable: nat, mode: Mode)
    requires StreamsOwned(s)
    ensures StreamsOwned(Opened(s, f, readable, mode))
  {
    RecOwned(s, f, Rec(s, f).(buf := UNINIT, readable := readable, mode := mode));
  }

  lemma {:induction false} CodeOwned(s: Sys, code: int)
    requires StreamsOwned(s)
    ensures StreamsOwned(SetIfClear(s, code))
  {
  }

  lemma {:induction false} ResetOwned(s: Sys, t: Sys, f: nat, os: Os)
    requires !Pending(s) && t == CloseStream(s, f) && StreamsOwned(t) && !IsOpen(t, f)
    ensures StreamsOwned(Reset(s, f, os))
  {
    hide StreamsOwned, CloseStream, Attach, AttachStd, Opened;
    var name := Rec(t, f).name;
    var m := EffectiveFileMode(t, f);
    if name == "" {
      AttachStdOwned(t, f, STDIN);
      OpenedOwned(AttachStd(t, f, STDIN), f, 1, Input);
    } else if OpenError(t, name, os) != 0 {
      CodeOwned(t, PosixToRunError(OpenError(t, name, os)));
    } else if os.isDir {
      CodeOwned(t, 5);
    } else {
      AttachOwned(t, f, t.dir[name], m != 1, m == 1 || m == 2, false);
      OpenedOwned(Attach(t, f, t.dir[name], m != 1, m == 1 || m == 2, false), f,
                  if m == 1 then 0 else if m == 2 then 2 else 1, Input);
    }
  }

  lemma {:induction false} RewriteOwned(s: Sys, t: Sys, f: nat, os: Os)
    requires !Pending(s) && t == CloseStream(s, f) && StreamsOwned(t) && !IsOpen(t, f)
    ensures StreamsOwned(Rewrite(s, f, os))
  {
    hide CloseStream, Attach, AttachStd, Opened;
    var name := Rec(t, f).name;
    var rw := Rec(t, f).recSize > 0;
    if name == "" {
      AttachStdOwned(t, f, STDOUT);
      OpenedOwned(AttachStd(t, f, STDOUT), f, 0, Output);
    } else if os.errno == 0 {
      var u := if name in t.dir then t.(inodes := t.inodes[t.dir[name] := []])
               else t.(dir := t.dir[name := t.nextIno], inodes := t.inodes[t.nextIno := []], nextIno := t.nextIno + 1);
      SameHoldersOwned(t, u);
      AttachOwned(u, f, u.dir[name], rw, true, false);
      OpenedOwned(Attach(u, f, u.dir[name], rw, true, false), f, if rw then 2 else 0, Output);
    }
  }

  lemma {:induction false} AppendOwned(s: Sys, t: Sys, f: nat, os: Os)
    requires !Pending(s) && t == CloseStream(s, f) && StreamsOwned(t) && !IsOpen(t, f)
    ensures StreamsOwned(Append(s, f, os))
  {
    hide StreamsOwned, CloseStream, Attach, AttachStd, Opened;
    var name := Rec(t, f).name;
    if name == "" {
      AttachStdOwned(t, f, STDOUT);
      OpenedOwned(AttachStd(t, f, STDOUT), f, 0, Output);
    } else if OpenError(t, name, os) != 0 {
      CodeOwned(t, PosixToRunError(OpenError(t, name, os)));
    } else {
      AttachOwned(t, f, t.dir[name], false, true, true);
      OpenedOwned(Attach(t, f, t.dir[name], false, true, true), f, 0, Output);
    }
  }

  /** The operations that open or close nothing leave every stream with its holder. */
  predicate Moves(op: Op) {
    !(op.OpAssign? || op.OpReset? || op.OpRewrite? || op.OpAppend? || op.OpResetSized? || op.OpRewriteSized? || op.OpClose?)
  }

  lemma {:induction false} ReadyHolders(s: Sys, f: nat)
    requires StreamsOwned(s)
    ensures SameHolders(s, FileReady(s, f).s)
  {
    if IsOpen(s, f) {
      assert f in s.files;
      assert Fp(s, f) in s.streams;
    }
  }

  /** `g` has the holders of `s`, and so has whatever only moves `f`'s stream or edits its record. */
  ghost predicate Holds(s: Sys, g: Sys, f: nat) {
    SameHolders(s, g) && (IsOpen(g, f) ==> Fp(g, f) in g.streams)
  }

  lemma {:induction false} HoldsReady(s: Sys, f: nat)
    requires StreamsOwned(s)
    ensures Holds(s, FileReady(s, f).s, f)
  {
    if IsOpen(s, f) {
      assert f in s.files;
    }
  }

  lemma {:induction false} HoldsEdits(s: Sys, g: Sys, f: nat, code: int, wantWrite: bool)
    requires Holds(s, g, f)
    ensures Holds(s, SetIfClear(g, code), f) && Holds(s, DropWindow(g, f), f)
    ensures IsOpen(g, f) ==> Holds(s, TrapOnStreamError(g, f, wantWrite), f)
  {
  }

  lemma {:induction false} HoldsCursor(s: Sys, g: Sys, f: nat, c: Cursor)
    requires Holds(s, g, f) && IsOpen(g, f)
    ensures Holds(s, PutCursor(g, f, c), f) && IsOpen(PutCursor(g, f, c), f)
  {
  }

  lemma {:induction false} HoldsTransfer(s: Sys, g: Sys, f: nat, want: nat, data: seq<byte>, os: Os)
    requires Holds(s, g, f) && IsOpen(g, f)
    ensures Holds(s, Fread(g, f, want).s, f) && IsOpen(Fread(g, f, want).s, f)
    ensures Holds(s, Fwrite(g, f, data, os).s, f) && IsOpen(Fwrite(g, f, data, os).s, f)
  {
  }

  lemma {:induction false} TextHolders(s: Sys, f: nat, crossLines: bool)
    requires StreamsOwned(s)
    ensures SameHolders(s, Eoln(s, f).s) && SameHolders(s, SeekEofOrEoln(s, f, crossLines).s)
    ensures SameHolders(s, Readln(s, f)) && SameHolders(s, ReadChar(s, f).s)
  {
    hide StreamsOwned, SameHolders, FileReady, PutCursor, TrapOnStreamError, EnsurePrimed, SkipWhitespace, ReadlnTurbo, Advance;
    HoldsReady(s, f);
    var g := FileReady(s, f);
    if g.ready {
      forall c
        ensures Holds(s, PutCursor(g.s, f, c), f) && IsOpen(PutCursor(g.s, f, c), f)
        ensures Holds(s, TrapOnStreamError(PutCursor(g.s, f, c), f, false), f)
      {
        HoldsCursor(s, g.s, f, c);
        HoldsEdits(s, PutCursor(g.s, f, c), f, 0, false);
      }
    }
  }

  lemma {:induction false} NumberHolders(s: Sys, f: nat, parse: seq<int> -> Option<int>)
    requires StreamsOwned(s)
    ensures SameHolders(s, ReadNumber(s, f, parse).s)
  {
    hide StreamsOwned, SameHolders, FileReady, PutCursor, TrapOnStreamError, SetIfClear, SkipWhitespace, TakeToken, Prime;
    HoldsReady(s, f);
    var g := FileReady(s, f);
    if g.ready {
      var c := CursorOf(g.s, f);
      var t := TakeToken(SkipWhitespace(if c.buf == UNINIT then Prime(c) else c, true)).c;
      HoldsCursor(s, g.s, f, t);
      HoldsEdits(s, PutCursor(g.s, f, t), f, 0, false);
      HoldsEdits(s, TrapOnStreamError(PutCursor(g.s, f, t), f, false), f, 106, false);
    }
  }

  lemma {:induction false} EofHolders(s: Sys, f: nat)
    requires StreamsOwned(s)
    ensures SameHolders(s, Eof(s, f).s)
  {
    hide EnsurePrimed;
    HoldsReady(s, f);
    var g := FileReady(s, f);
    SameHoldersOwned(s, g.s);
    HoldsReady(g.s, f);
    HoldsReady(FilePos(g.s, f).s, f);
    if g.ready {
      HoldsCursor(s, g.s, f, EnsurePrimed(CursorOf(g.s, f), true));
    }
  }

  lemma {:induction false} BlockReadHolders(s: Sys, f: nat, n: int, has: bool)
    requires StreamsOwned(s)
    ensures SameHolders(s, BlockRead(s, f, n, has).s)
  {
    hide StreamsOwned, FileReady, Fread, SetIfClear, DropWindow;
    HoldsReady(s, f);
    var g := FileReady(s, f);
    if g.ready && n > 0 && Rec(g.s, f).recSize > 0 {
      var want := n * Rec(g.s, f).recSize;
      HoldsTransfer(s, g.s, f, want, [], Os(0, false, 0));
      var t := Fread(g.s, f, want).s;
      HoldsEdits(s, t, f, 0, false);
      HoldsEdits(s, DropWindow(t, f), f, 100, false);
    }
  }

  lemma {:induction false} BlockWriteHolders(s: Sys, f: nat, d: seq<byte>, n: int, has: bool, os: Os)
    requires StreamsOwned(s)
    ensures SameHolders(s, BlockWrite(s, f, d, n, has, os).s)
  {
    hide StreamsOwned, FileReady, Fwrite, TrapOnStreamError, SetIfClear, DropWindow;
    HoldsReady(s, f);
    var g := FileReady(s, f);
    if g.ready && n > 0 && Rec(g.s, f).recSize > 0 {
      WriteHolders(s, g.s, f, d, os);
      HoldsEdits(s, DropWindow(TrapOnStreamError(Fwrite(g.s, f, d, os).s, f, true), f), f, 101, true);
    }
  }

  lemma {:induction false} ReadBinaryHolders(s: Sys, f: nat, n: nat)
    requires StreamsOwned(s)
    ensures SameHolders(s, ReadBinary(s, f, n).s)
  {
    hide StreamsOwned, FileReady, Fread, PutCursor, TrapOnStreamError, SetIfClear, Prime, CursorOf;
    HoldsReady(s, f);
    var g := FileReady(s, f);
    if g.ready {
      HoldsTransfer(s, g.s, f, n, [], Os(0, false, 0));
      ReadBinaryOpen(g.s, f, n);
      var t := TrapOnStreamError(Fread(g.s, f, n).s, f, false);
      HoldsEdits(s, Fread(g.s, f, n).s, f, 0, false);
      HoldsEdits(s, t, f, 100, false);
      var u := if Fread(g.s, f, n).n < n || n == 0 then SetIfClear(t, 100) else t;
      HoldsCursor(s, u, f, Prime(CursorOf(u, f)));
    }
  }

  lemma {:induction false} WritesHolders(s: Sys, f: nat, d: seq<byte>, os: Os)
    requires StreamsOwned(s)
    ensures SameHolders(s, WriteText(s, f, d, os)) && SameHolders(s, WriteBinary(s, f, d, os))
  {
    hide StreamsOwned, FileReady, Fwrite, TrapOnStreamError, DropWindow;
    HoldsReady(s, f);
    var g := FileReady(s, f);
    if g.ready {
      WriteHolders(s, g.s, f, d, os);
    }
  }

  lemma {:induction false} ReadBinaryOpen(s: Sys, f: nat, n: nat)
    requires IsOpen(s, f)
    ensures IsOpen(Fread(s, f, n).s, f)
    ensures var t := TrapOnStreamError(Fread(s, f, n).s, f, false);
            IsOpen(t, f) && IsOpen(SetIfClear(t, 100), f)
  {
  }

  lemma {:induction false} WriteHolders(s: Sys, g: Sys, f: nat, data: seq<byte>, os: Os)
    requires Holds(s, g, f) && IsOpen(g, f)
    ensures var w := Fwrite(g, f, data, os).s;
            && IsOpen(w, f)
            && Holds(s, TrapOnStreamError(w, f, true), f)
            && Holds(s, DropWindow(TrapOnStreamError(w, f, true), f), f)
  {
    hide Fwrite, TrapOnStreamError, DropWindow, SameHolders;
    HoldsTransfer(s, g, f, 0, data, os);
    var w := Fwrite(g, f, data, os).s;
    HoldsEdits(s, w, f, 0, true);
    HoldsEdits(s, TrapOnStreamError(w, f, true), f, 0, true);
  }

  lemma {:induction false} PositionHolders(s: Sys, f: nat, n: int, os: Os)
    requires StreamsOwned(s)
    ensures SameHolders(s, FilePos(s, f).s) && SameHolders(s, FileSize(s, f).s)
    ensures SameHolders(s, Seek(s, f, n)) && SameHolders(s, Truncate(s, f, os)) && SameHolders(s, Flush(s, f, os))
  {
    HoldsReady(s, f);
  }

  lemma {:induction false} NameHolders(s: Sys, f: nat, name: string, os: Os)
    ensures SameHolders(s, Erase(s, f, os)) && SameHolders(s, Rename(s, f, name, os))
  {
  }

  lemma {:induction false} CodeHolders(s: Sys)
    ensures SameHolders(s, IoResult(s).s) && SameHolders(s, IoCheck(s))
  {
  }

  predicate ReadsText(op: Op) {
    op.OpEof? || op.OpEoln? || op.OpSeekEof? || op.OpSeekEoln? || op.OpReadln? || op.OpReadChar? || op.OpReadNumber?
  }

  lemma {:induction false} ReadsHolders(s: Sys, op: Op)
    requires StreamsOwned(s) && ReadsText(op) && s.exit.None?
    ensures SameHolders(s, Step(s, op).s)
  {
    hide StreamsOwned, SameHolders, Eof, Eoln, SeekEofOrEoln, Readln, ReadChar, ReadNumber;
    match op
    case OpEof(f) => EofHolders(s, f);
    case OpReadNumber(f, parse) => NumberHolders(s, f, parse);
    case OpSeekEoln(f) => TextHolders(s, f, false);
    case OpSeekEof(f) => TextHolders(s, f, true);
    case OpEoln(f) => TextHolders(s, f, true);
    case OpReadln(f) => TextHolders(s, f, true);
    case OpReadChar(f) => TextHolders(s, f, true);
  }

  lemma {:induction false} MovesHolders(s: Sys, op: Op)
    requires StreamsOwned(s) && Moves(op) && s.exit.None?
    ensures SameHolders(s, Step(s, op).s)
  {
    hide StreamsOwned, SameHolders, FilePos, FileSize, Seek, Truncate, Flush, BlockRead, BlockWrite, ReadBinary, WriteText, WriteBinary,
         Eof, Eoln, SeekEofOrEoln, Readln, ReadChar, ReadNumber, Erase, Rename, IoResult, IoCheck;
    var os := Os(0, false, 0);
    match op
    case OpIoResult => CodeHolders(s);
    case OpIoCheck => CodeHolders(s);
    case OpErase(f, o) => NameHolders(s, f, "", o);
    case OpRename(f, name, o) => NameHolders(s, f, name, o);
    case OpFilePos(f) => PositionHolders(s, f, 0, os);
    case OpFileSize(f) => PositionHolders(s, f, 0, os);
    case OpSeek(f, n) => PositionHolders(s, f, n, os);
    case OpTruncate(f, o) => PositionHolders(s, f, 0, o);
    case OpFlush(f, o) => PositionHolders(s, f, 0, o);
    case OpBlockRead(f, n, has) => BlockReadHolders(s, f, n, has);
    case OpBlockWrite(f, d, n, has, o) => BlockWriteHolders(s, f, d, n, has, o);
    case OpReadBinary(f, n) => ReadBinaryHolders(s, f, n);
    case OpWriteText(f, d, o) => WritesHolders(s, f, d, o);
    case OpWriteBinary(f, d, o) => WritesHolders(s, f, d, o);
    case _ => ReadsHolders(s, op);
  }

  /** Over every run, every open file's stream is open and its own. */
  lemma {:induction false} StepOwned(s: Sys, op: Op)
    requires StreamsOwned(s)
    ensures StreamsOwned(Step(s, op).s)
  {
    if s.exit.None? {
      if Moves(op) {
        MovesHolders(s, op);
        SameHoldersOwned(s, Step(s, op).s);
      } else {
        OpeningOwned(s, op);
      }
    }
  }

  lemma {:induction false} OpeningOwned(s: Sys, op: Op)
    requires StreamsOwned(s) && !Moves(op) && s.exit.None?
    ensures StreamsOwned(Step(s, op).s)
  {
    hide StreamsOwned, CloseStream, Reset, Rewrite, Append;
    match op
    case OpReset(f, os) => OpensOwned(s, f, os);
    case OpRewrite(f, os) => OpensOwned(s, f, os);
    case OpAppend(f, os) => OpensOwned(s, f, os);
    case OpResetSized(f, n, os) => SizedOwned(s, f, n, os);
    case OpRewriteSized(f, n, os) => SizedOwned(s, f, n, os);
    case OpAssign(f, name) =>
      CloseStreamOwned(s, f);
      var t := CloseStream(s, f);
      RecOwned(t, f, Rec(t, f).(name := TruncateTo(name), mode := Closed));
    case OpClose(f) =>
      ReadyHolders(s, f);
      var g := FileReady(s, f);
      SameHoldersOwned(s, g.s);
      CloseStreamOwned(g.s, f);
      var t := CloseStream(g.s, f);
      RecOwned(t, f, Rec(t, f).(buf := UNINIT, readable := 0, mode := Closed));
  }

  lemma {:induction false} SizedOwned(s: Sys, f: nat, n: int, os: Os)
    requires StreamsOwned(s)
    ensures StreamsOwned(ResetSized(s, f, n, os)) && StreamsOwned(RewriteSized(s, f, n, os))
  {
    hide StreamsOwned, CloseStream, Reset, Rewrite, Append;
    CloseStreamOwned(s, f);
    CodeOwned(CloseStream(s, f), 2);
    RecOwned(s, f, Rec(s, f).(recSize := n));
    OpensOwned(WithRecSize(s, f, n), f, os);
  }

  lemma {:induction false} RunOwned(s: Sys, ops: seq<Op>)
    requires StreamsOwned(s)
    ensures StreamsOwned(Run(s, ops))
    decreases |ops|
  {
    if ops != [] {
      StepOwned(s, ops[0]);
      RunOwned(Step(s, ops[0]).s, ops[1..]);
    }
  }
}
