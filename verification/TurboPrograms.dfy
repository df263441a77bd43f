/** Short Turbo programs and the answers they get, told by statements and numbers. */
module TurboPrograms {
  import opened Bytes
  import opened TextWindow
  import opened TurboFiles
  import opened TurboOpen
  import opened TurboText
  import opened TurboRoundTrip

  // ---- what an open file may do ----

  /** `f` names a file on the disk. */
  ghost predicate Named(s: Sys, f: nat) {
    Idle(s) && Rec(s, f).name != "" && Rec(s, f).name in s.dir && s.dir[Rec(s, f).name] > STDOUT
  }

  function StoredAs(s: Sys, name: string): seq<byte> {
    if name in s.dir then Content(s, s.dir[name]) else []
  }

  lemma {:induction false} SizedOpen(s: Sys, f: nat, recSize: int)
    requires Named(s, f) && recSize > 0
    ensures var t := Step(s, OpResetSized(f, recSize, OK)).s;
            && Idle(t) && OnDisk(t, f) && Rec(t, f).recSize == recSize && t.inodes == s.inodes && t.dir == s.dir
            && StreamOf(t, Fp(t, f)).ino == s.dir[Rec(s, f).name] && Rec(t, f).name == Rec(s, f).name
            && (Rec(t, f).readable == 1 <==> s.fileMode != 1 && s.fileMode != 2)
  {
  }

  lemma {:induction false} SeekOnDisk(s: Sys, f: nat, k: nat)
    requires Idle(s) && OnDisk(s, f) && Rec(s, f).recSize > 0 && k * Rec(s, f).recSize < 0x8000_0000_0000_0000
    ensures k * Rec(s, f).recSize >= 0
    ensures var t := Step(s, OpSeek(f, k)).s;
            && Idle(t) && OnDisk(t, f) && t.inodes == s.inodes && t.dir == s.dir
            && Rec(t, f) == Rec(s, f).(buf := UNINIT) && Fp(t, f) == Fp(s, f)
            && StreamOf(t, Fp(t, f)) == StreamOf(s, Fp(s, f)).(pos := k * Rec(s, f).recSize, err := 0)
  {
    Product(k, Rec(s, f).recSize);
  }

  lemma {:induction false} Truncated(s: Sys, f: nat, k: nat)
    requires Idle(s) && OnDisk(s, f) && Rec(s, f).recSize > 0 && StreamOf(s, Fp(s, f)).pos == k * Rec(s, f).recSize
    ensures var (t, ino, r) := (Step(s, OpTruncate(f, OK)).s, StreamOf(s, Fp(s, f)).ino, Rec(s, f).recSize);
            if Rec(s, f).readable == 1 then t.inOutRes == 103 && t.inodes == s.inodes
            else
              && Idle(t) && t.dir == s.dir && |Content(t, ino)| == k * r
              && (forall i | 0 <= i < |Content(t, ino)| ::
                    Content(t, ino)[i] == if i < |Content(s, ino)| then Content(s, ino)[i] else 0)
              && Step(t, OpFileSize(f)).n == k && Step(t, OpFilePos(f)).n == k
  {
    Product(k, Rec(s, f).recSize);
    var t := Step(s, OpTruncate(f, OK)).s;
    if Rec(s, f).readable != 1 {
      TruncateEnds(s, f, OK);
      SeekThenFilePos(s, f, k);
    }
  }

  lemma RunThree(s: Sys, a: Op, b: Op, c: Op)
    ensures Run(s, [a, b, c]) == Step(Step(Step(s, a).s, b).s, c).s
  {
    hide Step;
    assert [a, b, c][1..] == [b, c];
    RunTwo(Step(s, a).s, b, c);
  }

  /** `Reset(f, recSize); Seek(f, k); Truncate(f)`: with FileMode 1 or 2 the file is cut,
    * or filled with zeros, to `k` records; in any other mode it was opened for reading
    * only, and the Truncate reports 103. */
  lemma {:induction false} TruncateAfterReset(s: Sys, f: nat, recSize: int, k: nat)
    requires Named(s, f) && recSize > 0 && k * recSize < 0x8000_0000_0000_0000
    ensures k * recSize >= 0
    ensures var t := Run(s, [OpResetSized(f, recSize, OK), OpSeek(f, k), OpTruncate(f, OK)]);
            var (was, now) := (StoredAs(s, Rec(s, f).name), StoredAs(t, Rec(s, f).name));
            if s.fileMode == 1 || s.fileMode == 2 then
              && Idle(t) && |now| == k * recSize
              && (forall i | 0 <= i < |now| :: now[i] == if i < |was| then was[i] else 0)
              && Step(t, OpFileSize(f)).n == k && Step(t, OpFilePos(f)).n == k
            else t.inOutRes == 103 && t.inodes == s.inodes
  {
    hide Step, Named, OnDisk, Idle;
    RunThree(s, OpResetSized(f, recSize, OK), OpSeek(f, k), OpTruncate(f, OK));
    SizedOpen(s, f, recSize);
    var t := Step(s, OpResetSized(f, recSize, OK)).s;
    SeekOnDisk(t, f, k);
    Truncated(Step(t, OpSeek(f, k)).s, f, k);
    NamedThere(s, f);
  }

  lemma NamedThere(s: Sys, f: nat)
    requires Named(s, f)
    ensures Rec(s, f).name in s.dir
  {
  }

  predicate Opens(op: Op) {
    op.OpReset? || op.OpRewrite? || op.OpAppend? || op.OpResetSized? || op.OpRewriteSized?
  }

  /** The record size the file has once it is open. */
  function SizeAfter(s: Sys, op: Op): int
    requires Opens(op)
  {
    if op.OpResetSized? || op.OpRewriteSized? then op.recSize else Rec(s, op.f).recSize
  }

  /** Only a Reset opens for reading alone: of a text, of the standard input, and of
    * records unless FileMode is 1 or 2. */
  predicate OpensReadOnly(s: Sys, op: Op)
    requires Opens(op)
  {
    (op.OpReset? || op.OpResetSized?)
    && (Rec(s, op.f).name == "" || SizeAfter(s, op) <= 0 || (s.fileMode != 1 && s.fileMode != 2))
  }

  /** `t` came from `s` by opening `f`, for reading alone or not, or by failing to. */
  predicate CameOpen(s: Sys, t: Sys, f: nat, readOnly: bool) {
    && t.exit.None?
    && (!Pending(t) ==> IsOpen(t, f) && (Rec(t, f).readable == 1 <==> readOnly) && Rec(t, f).mode != Closed)
  }

  lemma {:induction false} ResetCame(s: Sys, f: nat, os: Os)
    requires Idle(s)
    ensures CameOpen(s, Reset(s, f, os), f,
                     Rec(s, f).name == "" || Rec(s, f).recSize <= 0 || (s.fileMode != 1 && s.fileMode != 2))
  {
    hide PosixToRunError;
  }

  lemma {:induction false} RewriteCame(s: Sys, f: nat, os: Os)
    requires Idle(s)
    ensures CameOpen(s, Rewrite(s, f, os), f, false) && CameOpen(s, Append(s, f, os), f, false)
  {
    hide PosixToRunError;
  }

  lemma {:induction false} SizedCame(s: Sys, f: nat, n: int, os: Os)
    requires Idle(s)
    ensures CameOpen(s, ResetSized(s, f, n, os), f, Rec(s, f).name == "" || n <= 0 || (s.fileMode != 1 && s.fileMode != 2))
    ensures CameOpen(s, RewriteSized(s, f, n, os), f, false)
  {
    ResetCame(WithRecSize(s, f, n), f, os);
    RewriteCame(WithRecSize(s, f, n), f, os);
    hide Reset, Rewrite;
  }

  lemma {:induction false} ReadableAfter(s: Sys, op: Op)
    requires Idle(s) && Opens(op)
    ensures CameOpen(s, Step(s, op).s, op.f, OpensReadOnly(s, op))
  {
    hide CameOpen, Reset, Rewrite, Append, ResetSized, RewriteSized;
    match op
    case OpReset(f, os) => ResetCame(s, f, os);
    case OpRewrite(f, os) => RewriteCame(s, f, os);
    case OpAppend(f, os) => RewriteCame(s, f, os);
    case OpResetSized(f, n, os) => SizedCame(s, f, n, os);
    case OpRewriteSized(f, n, os) => SizedCame(s, f, n, os);
  }

  /** Flush right after a successful open answers 105 when it opened for reading alone,
    * and otherwise what the system answers. */
  lemma {:induction false} FlushAfterOpen(s: Sys, op: Op, os: Os)
    requires Idle(s) && Opens(op) && !Pending(Step(s, op).s)
    ensures Step(Step(s, op).s, OpFlush(op.f, os)).s.inOutRes
            == if OpensReadOnly(s, op) then 105 else if os.errno != 0 then PosixToRunError(os.errno) else 0
  {
    ReadableAfter(s, op);
    hide Step, Idle, OpensReadOnly;
    FlushReports(Step(s, op).s, op.f, os);
  }

  /** A text opened by Rewrite or Append answers that it has nothing to read: at its
    * end, and error 104 for a character or a number; nothing stored changes. */
  lemma {:induction false} NothingToRead(s: Sys, op: Op, parse: seq<int> -> Option<int>)
    requires Idle(s) && (op.OpRewrite? || op.OpAppend?) && Rec(s, op.f).recSize <= 0 && Rec(s, op.f).name != ""
    requires !Pending(Step(s, op).s)
    ensures var t := Step(s, op).s;
            && Step(t, OpEof(op.f)).n == 1 && Step(t, OpSeekEof(op.f)).n == 1 && Step(t, OpSeekEoln(op.f)).n == 1
            && Step(t, OpEoln(op.f)).n == 0
    ensures var (t, c) := (Step(s, op).s, Step(Step(s, op).s, OpReadChar(op.f)).s);
            c.inOutRes == 104 && c.inodes == t.inodes
    ensures var (t, r) := (Step(s, op).s, Step(Step(s, op).s, OpReadNumber(op.f, parse)));
            r.s.inOutRes == 104 && r.n == 0 && r.s.inodes == t.inodes
  {
    UnreadableAfter(s, op);
    var t := Step(s, op).s;
    hide Rewrite, Append;
    UnreadableAnswers(t, op.f);
    UnreadableRefuses(t, op.f, parse);
  }

  /** Open for writing alone, with an empty window. */
  ghost predicate Unreadable(t: Sys, f: nat) {
    && Idle(t) && IsOpen(t, f) && Rec(t, f).readable == 0 && Rec(t, f).buf == UNINIT && Rec(t, f).recSize <= 0
    && !StreamOf(t, Fp(t, f)).canRead
  }

  lemma {:induction false} UnreadableAfter(s: Sys, op: Op)
    requires Idle(s) && (op.OpRewrite? || op.OpAppend?) && Rec(s, op.f).recSize <= 0 && Rec(s, op.f).name != ""
    requires !Pending(Step(s, op).s)
    ensures Unreadable(Step(s, op).s, op.f)
  {
    hide PosixToRunError;
  }

  lemma {:induction false} UnreadableAnswers(t: Sys, f: nat)
    requires Unreadable(t, f)
    ensures Step(t, OpEof(f)).n == 1 && Step(t, OpSeekEof(f)).n == 1 && Step(t, OpSeekEoln(f)).n == 1
    ensures Step(t, OpEoln(f)).n == 0
  {
    hide SkipWhitespace;
  }

  lemma {:induction false} UnreadableRefuses(t: Sys, f: nat, parse: seq<int> -> Option<int>)
    requires Unreadable(t, f)
    ensures Step(t, OpReadChar(f)).s.inOutRes == 104 && Step(t, OpReadChar(f)).s.inodes == t.inodes
    ensures var r := Step(t, OpReadNumber(f, parse)); r.s.inOutRes == 104 && r.n == 0 && r.s.inodes == t.inodes
  {
  }

  /** Records opened in file mode 1 are for writing alone: Eof is true wherever the file
    * stands, and a block read delivers nothing. */
  lemma {:induction false} WriteOnlyRecords(s: Sys, f: nat, recSize: int, count: int, has: bool)
    requires Named(s, f) && recSize > 0 && s.fileMode == 1 && count > 0
    ensures var t := Step(s, OpResetSized(f, recSize, OK)).s;
            && Idle(t) && Step(t, OpEof(f)).n == 1
            && Step(t, OpBlockRead(f, count, has)).data == [] && Step(t, OpBlockRead(f, count, has)).n == 0
  {
    WriteOnly(s, f, recSize);
    var t := Step(s, OpResetSized(f, recSize, OK)).s;
    hide ResetSized;
    EndForWriters(t, f);
    ReadRefused(t, f, count, has);
  }

  lemma {:induction false} WriteOnly(s: Sys, f: nat, recSize: int)
    requires Named(s, f) && recSize > 0 && s.fileMode == 1
    ensures var t := Step(s, OpResetSized(f, recSize, OK)).s;
            && Idle(t) && IsOpen(t, f) && Rec(t, f).readable == 0 && Rec(t, f).recSize == recSize
            && !StreamOf(t, Fp(t, f)).canRead
  {
  }

  lemma {:induction false} EndForWriters(t: Sys, f: nat)
    requires Idle(t) && IsOpen(t, f) && Rec(t, f).readable == 0
    ensures Step(t, OpEof(f)).n == 1
  {
  }

  // ---- what an operation fails with ----

  /** The run-time error numbers the system's own numbers are told by; any other is
    * told as it is. */
  const RUN_ERRORS: map<nat, nat> :=
    map[2 := 2, 36 := 3, 23 := 4, 24 := 4,
        13 := 5, 30 := 5, 17 := 5, 39 := 5, 16 := 5, 20 := 5, 21 := 5,
        32 := 101, 4 := 101, 5 := 101, 11 := 101, 28 := 101, 22 := 218]

  function Told(errno: nat): nat { if errno in RUN_ERRORS then RUN_ERRORS[errno] else errno }

  /** What opening a name for reading fails with: 2 when there is none, the system's own
    * complaint, and 5 for a directory. */
  lemma {:induction false} OpensFailWith(s: Sys, f: nat, os: Os)
    requires Idle(s) && Rec(s, f).name != ""
    ensures var there := Rec(s, f).name in s.dir;
            && Step(s, OpReset(f, os)).s.inOutRes
               == (if !there then 2 else if os.errno != 0 then Told(os.errno) else if os.isDir then 5 else 0)
            && Step(s, OpAppend(f, os)).s.inOutRes == (if !there then 2 else Told(os.errno))
            && Step(s, OpRewrite(f, os)).s.inOutRes == Told(os.errno)
  {
    ErrorsTold(os.errno);
    hide Told, PosixToRunError;
    ErrorTwo();
  }

  lemma ErrorsTold(errno: nat)
    ensures Told(0) == 0 && (errno != 0 ==> PosixToRunError(errno) == Told(errno) != 0)
  {
  }

  lemma ErrorTwo()
    ensures PosixToRunError(2) == 2
  {
  }

  /** Erase and Rename after an Assign or a Close: nothing when the system is content, 2
    * for a missing name, else the system's complaint. */
  lemma {:induction false} NamesFailWith(s: Sys, f: nat, name: string, os: Os)
    requires Idle(s) && Rec(s, f).mode == Closed
    ensures var code := if Rec(s, f).name !in s.dir then 2 else Told(os.errno);
            Step(s, OpErase(f, os)).s.inOutRes == code && Step(s, OpRename(f, name, os)).s.inOutRes == code
  {
    ErrorsTold(os.errno);
    ErrorTwo();
  }

  /** A write the system refuses with `errno` is told by its number. */
  lemma {:induction false} WriteFailsWith(s: Sys, f: nat, d: seq<byte>, os: Os)
    requires Idle(s) && IsOpen(s, f) && StreamOf(s, Fp(s, f)).canWrite && os.errno != 0 && os.errno != 9 && d != []
    ensures Step(s, OpWriteText(f, d, os)).s.inOutRes == Told(os.errno) != 0
    ensures Step(s, OpWriteBinary(f, d, os)).s.inOutRes == Told(os.errno)
  {
    ErrorsTold(os.errno);
    hide Told, PosixToRunError, FileReady, Fwrite, TrapOnStreamError;
    RefusedWrite(s, f, d, os);
  }

  lemma {:induction false} RefusedWrite(s: Sys, f: nat, d: seq<byte>, os: Os)
    requires Idle(s) && IsOpen(s, f) && StreamOf(s, Fp(s, f)).canWrite && os.errno != 0 && os.errno != 9
    ensures var g := FileReady(s, f);
            g.ready && TrapOnStreamError(Fwrite(g.s, f, d, os).s, f, true).inOutRes == PosixToRunError(os.errno)
  {
    hide Splice, PosixToRunError;
  }

  // ---- names and modes ----

  /** A name is cut to 511 characters, and Assign closes what was open. */
  lemma {:induction false} NameCut(s: Sys, f: nat, name: string)
    requires Idle(s)
    ensures var t := Step(s, OpAssign(f, name)).s;
            && Rec(t, f).name == (if |name| <= 511 then name else name[..511])
            && Rec(t, f).mode == Closed && !IsOpen(t, f) && Released(s, t, f)
    ensures var t := Step(s, OpRename(f, name, OK)).s;
            !Pending(t) ==> Rec(t, f).name == if |name| <= 511 then name else name[..511]
  {
  }

  /** Neither Erase nor Rename touches a file that is open, or one no name was ever
    * assigned to: 102. */
  lemma {:induction false} OpenIsKept(s: Sys, op: Op, name: string, os: Os)
    requires Idle(s) && Opens(op) && !Pending(Step(s, op).s)
    ensures var t := Step(s, op).s;
            && Step(t, OpErase(op.f, os)).s == t.(inOutRes := 102)
            && Step(t, OpRename(op.f, name, os)).s == t.(inOutRes := 102)
  {
    ReadableAfter(s, op);
    hide Step, OpensReadOnly;
    ModeRefused(Step(s, op).s, op.f, name, os);
  }

  lemma {:induction false} ModeRefused(s: Sys, f: nat, name: string, os: Os)
    requires Idle(s) && Rec(s, f).mode != Closed
    ensures Step(s, OpErase(f, os)).s == Step(s, OpRename(f, name, os)).s == s.(inOutRes := 102)
  {
  }

  lemma {:induction false} NeverAssigned(s: Sys, f: nat, name: string, os: Os)
    requires Idle(s) && f !in s.files
    ensures Step(s, OpErase(f, os)).s == Step(s, OpRename(f, name, os)).s == s.(inOutRes := 102)
  {
  }

  // ---- the consoles ----

  ghost predicate Consoles(s: Sys) {
    StreamOf(s, 0).ino == 0 && StreamOf(s, 1).ino == 1
  }

  /** With the empty name, Reset reads the standard input and Rewrite and Append write
    * the standard output whatever the system says; neither has a position. */
  lemma {:induction false} ConsoleHasNoPosition(s: Sys, f: nat, op: Op, k: nat)
    requires (op.OpReset? || op.OpRewrite? || op.OpAppend?) && op.f == f
    requires Idle(s) && Consoles(s) && Rec(s, f).name == ""
    requires IsOpen(s, f) ==> Fp(s, f) > 1
    requires k * (if Rec(s, f).recSize > 0 then Rec(s, f).recSize else 1) < 0x8000_0000_0000_0000
    ensures var t := Step(s, op).s;
            && Idle(t) && t.dir == s.dir && t.inodes == s.inodes && IsOpen(t, f) && Fp(t, f) == (if op.OpReset? then 0 else 1)
            && Step(t, OpFilePos(f)).n == 0 && Step(t, OpFileSize(f)).n == 0
            && Step(t, OpSeek(f, k)).s.inOutRes == 29
            && Step(t, OpTruncate(f, OK)).s.inOutRes == if op.OpReset? then 103 else 29
  {
    ConsoleOpened(s, f, op);
    hide Reset, Rewrite, Append;
    ConsoleRefuses(Step(s, op).s, f, k);
  }

  lemma {:induction false} ConsoleOpened(s: Sys, f: nat, op: Op)
    requires (op.OpReset? || op.OpRewrite? || op.OpAppend?) && op.f == f
    requires Idle(s) && Consoles(s) && Rec(s, f).name == ""
    requires IsOpen(s, f) ==> Fp(s, f) > 1
    ensures var t := Step(s, op).s;
            && Idle(t) && t.dir == s.dir && t.inodes == s.inodes && IsOpen(t, f) && Fp(t, f) == (if op.OpReset? then 0 else 1)
            && StreamOf(t, Fp(t, f)).ino == Fp(t, f) && Rec(t, f).recSize == Rec(s, f).recSize
            && Rec(t, f).readable == if op.OpReset? then 1 else 0
  {
  }

  lemma {:induction false} ConsoleRefuses(t: Sys, f: nat, k: nat)
    requires Idle(t) && IsOpen(t, f) && StreamOf(t, Fp(t, f)).ino <= 1
    requires k * (if Rec(t, f).recSize > 0 then Rec(t, f).recSize else 1) < 0x8000_0000_0000_0000
    ensures Step(t, OpFilePos(f)).n == 0 && Step(t, OpFileSize(f)).n == 0
    ensures Step(t, OpSeek(f, k)).s.inOutRes == 29
    ensures Step(t, OpTruncate(f, OK)).s.inOutRes == if Rec(t, f).readable == 1 then 103 else 29
  {
    var m := if Rec(t, f).recSize > 0 then Rec(t, f).recSize else 1;
    Product(k, m);
  }

  // ---- short transfers ----

  /** A component that is not all there comes with zeros for the rest, and error 100. */
  lemma {:induction false} ShortRead(s: Sys, f: nat, size: nat)
    requires Idle(s) && IsOpen(s, f) && StreamOf(s, Fp(s, f)).canRead
    requires var st := StreamOf(s, Fp(s, f)); st.pos + size > |Content(s, st.ino)| || size == 0
    ensures var (r, st) := (Step(s, OpReadBinary(f, size)), StreamOf(s, Fp(s, f)));
            var c := Content(s, st.ino);
            && r.s.inOutRes == 100 && r.s.inodes == s.inodes && |r.data| == size
            && (forall i | 0 <= i < size :: r.data[i] == if st.pos + i < |c| then c[st.pos + i] else 0)
  {
    ShortFread(s, f, size);
  }

  lemma {:induction false} ShortFread(s: Sys, f: nat, size: nat)
    requires IsOpen(s, f) && StreamOf(s, Fp(s, f)).canRead
    requires var st := StreamOf(s, Fp(s, f)); st.pos + size > |Content(s, st.ino)| || size == 0
    ensures var (d, st) := (Filled(Fread(s, f, size).data, size), StreamOf(s, Fp(s, f)));
            var c := Content(s, st.ino);
            && |d| == size && forall i | 0 <= i < size :: d[i] == if st.pos + i < |c| then c[st.pos + i] else 0
  {
  }

  /** A block transfer of no records, or of records without a size, does nothing; so
    * does the writing of an empty text, whatever the file is open for. */
  lemma {:induction false} NothingMoves(s: Sys, f: nat, d: seq<byte>, count: int, has: bool, os: Os)
    requires Idle(s) && IsOpen(s, f) && StreamOf(s, Fp(s, f)).err == 0 && Fp(s, f) in s.streams
    requires count <= 0 || Rec(s, f).recSize == 0
    ensures Step(s, OpBlockRead(f, count, has)) == Outcome(s, 0)
    ensures Step(s, OpBlockWrite(f, d, count, has, os)) == Outcome(s, 0)
    ensures Step(s, OpWriteText(f, [], os)) == Outcome(s, 0)
  {
    var h := Fp(s, f);
    assert s.streams[h := s.streams[h]] == s.streams;
  }

  /** A block write that stored fewer whole records than it was asked for, with no
    * complaint of the system, reports 101 unless the count is asked for. */
  lemma {:induction false} ShortWrite(s: Sys, f: nat, d: seq<byte>, count: int, has: bool)
    requires Idle(s) && IsOpen(s, f) && StreamOf(s, Fp(s, f)).canWrite && count > 0 && Rec(s, f).recSize > 0
    ensures var r := Step(s, OpBlockWrite(f, d, count, has, OK));
            r.n == |d| / Rec(s, f).recSize && r.s.inOutRes == if !has && r.n < count then 101 else 0
  {
    hide Splice;
  }

  // ---- texts ----

  /** Seek moves in a text by characters. */
  lemma {:induction false} SeekInText(s: Sys, f: nat, c: seq<byte>, p: nat, k: nat)
    requires Reading(s, f, c, p) && OnDisk(s, f) && k <= |c| && k < 0x8000_0000_0000_0000
    ensures Reading(Step(s, OpSeek(f, k)).s, f, c, k)
  {
  }

  /** In a text of two characters, Readln goes behind CR LF or behind one CR or LF, and
    * SeekEof goes behind blanks, tabs, CR and LF. */
  lemma {:induction false} TwoCharacters(s: Sys, f: nat, a: byte, b: byte)
    requires Reading(s, f, [a, b], 0)
    ensures Reading(Step(s, OpReadln(f)).s, f, [a, b],
                    if a == 13 && b == 10 then 2 else if a == 13 || a == 10 then 1 else 2)
    ensures Reading(Step(s, OpSeekEof(f)).s, f, [a, b],
                    if a !in {9, 10, 13, 32} then 0 else if b !in {9, 10, 13, 32} then 1 else 2)
    ensures Reading(Step(s, OpSeekEoln(f)).s, f, [a, b],
                    if a !in {9, 32} then 0 else if b !in {9, 32} then 1 else 2)
  {
    hide Reading, Step;
    ReadlnMoves(s, f, [a, b], 0);
    SeekStops(s, f, true, [a, b], 0);
    SeekStops(s, f, false, [a, b], 0);
  }
}
