/** What a Turbo program sees of opening, closing, moving in and renaming files, and
  * of transfers that fail. */
module TurboOpen {
  import Bits
  import opened Bytes
  import opened TextWindow
  import opened TurboFiles

  ghost predicate Idle(s: Sys) { !Pending(s) && s.exit.None? }

  /** The stream `f` held is gone. */
  predicate Released(s: Sys, t: Sys, f: nat) {
    IsOpen(s, f) && STDOUT < Fp(s, f) < s.nextHandle ==> Fp(s, f) !in t.streams
  }

  /** The text `f` stands at the start of, through an empty window. */
  predicate AtStart(t: Sys, f: nat, c: seq<byte>, canRead: bool) {
    IsOpen(t, f) && CursorOf(t, f) == Cursor(c, 0, canRead, UNINIT, false)
  }

  /** Reset opens exactly what is there: the standard input, or a name that exists, is
    * no directory and that the system opens. Otherwise the file is closed and an error
    * pending. Nothing stored changes either way. */
  lemma {:induction false} ResetOpens(s: Sys, f: nat, os: Os)
    requires Idle(s)
    ensures var (t, name) := (Step(s, OpReset(f, os)).s, Rec(s, f).name);
            && t.dir == s.dir && t.inodes == s.inodes && Released(s, t, f)
            && (IsOpen(t, f) <==> name == "" || (name in s.dir && os.errno == 0 && !os.isDir))
            && (IsOpen(t, f) <==> !Pending(t))
            && (IsOpen(t, f) && name == "" ==> Fp(t, f) == STDIN && Rec(t, f).buf == UNINIT)
            && (IsOpen(t, f) && name != "" ==>
                  var mode := if Rec(s, f).recSize > 0 then s.fileMode else 0;
                  && AtStart(t, f, Content(s, s.dir[name]), mode != 1)
                  && (StreamOf(t, Fp(t, f)).canWrite <==> mode == 1 || mode == 2))
  {
  }

  /** Rewrite leaves the name there and empty, and every other file as it was. */
  lemma {:induction false} RewriteEmpties(s: Sys, f: nat, os: Os)
    requires Idle(s)
    ensures var (t, name) := (Step(s, OpRewrite(f, os)).s, Rec(s, f).name);
            && Released(s, t, f)
            && (IsOpen(t, f) <==> name == "" || os.errno == 0) && (IsOpen(t, f) <==> !Pending(t))
            && (name == "" || os.errno != 0 ==> t.dir == s.dir && t.inodes == s.inodes)
            && (name != "" && os.errno == 0 ==>
                  && name in t.dir && AtStart(t, f, [], Rec(s, f).recSize > 0)
                  && t.dir == s.dir[name := t.dir[name]]
                  && (name in s.dir ==> t.dir[name] == s.dir[name])
                  && (forall i | i != t.dir[name] :: Content(t, i) == Content(s, i)))
  {
  }

  lemma SpliceLast(c: seq<byte>, d: seq<byte>)
    ensures Splice(c, |c|, d) == c + d
  {
    assert c[..|c|] == c && c + d + [] == c + d && c + [] == c;
  }

  lemma {:induction false} AppendOpens(s: Sys, f: nat, os: Os)
    requires Idle(s) && Rec(s, f).name != ""
    ensures var (t, name) := (Append(s, f, os), Rec(s, f).name);
            && t.exit.None? && t.dir == s.dir && t.inodes == s.inodes && Released(s, t, f)
            && (IsOpen(t, f) <==> name in s.dir && os.errno == 0) && (IsOpen(t, f) <==> !Pending(t))
            && (IsOpen(t, f) ==>
                  var st := StreamOf(t, Fp(t, f)); st.ino == s.dir[name] && st.canWrite && st.append && st.err == 0)
  {
  }

  lemma {:induction false} AddsAtEnd(t: Sys, f: nat, d: seq<byte>, ok: Os)
    requires Idle(t) && IsOpen(t, f) && ok.errno == 0
    requires var st := StreamOf(t, Fp(t, f)); st.canWrite && st.append && st.err == 0
    ensures var (w, ino) := (Step(t, OpWriteText(f, d, ok)).s, StreamOf(t, Fp(t, f)).ino);
            !Pending(w) && Content(w, ino) == Content(t, ino) + d
  {
    var c := Content(t, StreamOf(t, Fp(t, f)).ino);
    SpliceLast(c, d);
    assert d[..|d|] == d && c + [] == c;
    hide Splice;
  }

  /** What is written after Append goes to the end, wherever the stream stands; Append
    * creates nothing. */
  lemma {:induction false} AppendAdds(s: Sys, f: nat, os: Os, d: seq<byte>, ok: Os)
    requires Idle(s) && Rec(s, f).name != "" && ok.errno == 0
    ensures var (t, name) := (Step(s, OpAppend(f, os)).s, Rec(s, f).name);
            && t.dir == s.dir && t.inodes == s.inodes && Released(s, t, f)
            && (IsOpen(t, f) <==> name in s.dir && os.errno == 0) && (IsOpen(t, f) <==> !Pending(t))
            && (IsOpen(t, f) ==>
                  var w := Step(t, OpWriteText(f, d, ok)).s;
                  !Pending(w) && Content(w, s.dir[name]) == Content(s, s.dir[name]) + d)
  {
    AppendOpens(s, f, os);
    var t := Append(s, f, os);
    hide Append;
    if IsOpen(t, f) {
      AddsAtEnd(t, f, d, ok);
    }
  }

  /** The operations that need an open file. */
  predicate NeedsOpen(op: Op) {
    !(op.OpAssign? || op.OpReset? || op.OpRewrite? || op.OpAppend? || op.OpResetSized? || op.OpRewriteSized?
      || op.OpErase? || op.OpRename? || op.OpIoResult? || op.OpIoCheck?)
  }

  /** On a file that is not open each of them reports 103 and does nothing else. */
  lemma {:induction false} ClosedRefuses(s: Sys, op: Op)
    requires Idle(s) && NeedsOpen(op) && !IsOpen(s, op.f)
    ensures Step(s, op).s == s.(inOutRes := 103) && Step(s, op).data == []
  {
  }

  /** Close closes: the name stays, and a second Close is refused. */
  lemma {:induction false} CloseCloses(s: Sys, f: nat)
    requires Idle(s) && IsOpen(s, f)
    ensures var t := Step(s, OpClose(f)).s;
            && Idle(t) && !IsOpen(t, f) && Released(s, t, f) && t.inodes == s.inodes && t.dir == s.dir
            && Rec(t, f).name == Rec(s, f).name && Rec(t, f).mode == Closed
            && Step(t, OpClose(f)).s == t.(inOutRes := 103)
  {
  }

  /** A record size of 0 is refused as a missing file is, and what was open is closed all
    * the same; the size recorded before stays. */
  lemma {:induction false} ZeroSizeRefused(s: Sys, f: nat, os: Os)
    requires Idle(s)
    ensures var t := Step(s, OpResetSized(f, 0, os)).s;
            && t == Step(s, OpRewriteSized(f, 0, os)).s
            && t.inOutRes == 2 && !IsOpen(t, f) && Released(s, t, f)
            && t.dir == s.dir && t.inodes == s.inodes && Rec(t, f).recSize == Rec(s, f).recSize
  {
  }

  /** Flush moves and stores nothing; it reports a file open for reading only, or else
    * what the system answers. */
  lemma {:induction false} FlushReports(s: Sys, f: nat, os: Os)
    requires Idle(s) && IsOpen(s, f)
    ensures var t := Step(s, OpFlush(f, os)).s;
            && t.inOutRes == (if Rec(s, f).readable == 1 then 105
                              else if os.errno != 0 then PosixToRunError(os.errno) else 0)
            && t.files == s.files && t.inodes == s.inodes && StreamOf(t, Fp(t, f)).pos == StreamOf(s, Fp(s, f)).pos
  {
  }

  // ---- positions ----

  predicate OnDisk(s: Sys, f: nat) {
    IsOpen(s, f) && !IsConsole(StreamOf(s, Fp(s, f)))
  }

  lemma Product(n: int, m: int)
    requires m > 0
    ensures (n * m < 0 <==> n < 0) && n * m / m == n
  {
    Bits.MultipleBound(n, m);
    Bits.ModUnique(n * m, n, 0, m);
    assert n == 0 ==> n * m == 0;
  }

  /** Seek goes where FilePos then says, or fails with 218 and stays: exactly for a
    * negative record or an offset no 64-bit integer holds. */
  lemma {:induction false} SeekThenFilePos(s: Sys, f: nat, n: int)
    requires Idle(s) && OnDisk(s, f) && Rec(s, f).recSize > 0
    ensures var t := Step(s, OpSeek(f, n)).s;
            if n < 0 || n * Rec(s, f).recSize >= 0x8000_0000_0000_0000 then
              t.inOutRes == 218 && StreamOf(t, Fp(t, f)).pos == StreamOf(s, Fp(s, f)).pos && t.files == s.files
            else Idle(t) && Step(t, OpFilePos(f)).n == n && t.inodes == s.inodes && Rec(t, f).buf == UNINIT
  {
    Product(n, Rec(s, f).recSize);
  }

  /** A record's position does not depend on what is stored there: a Seek may go past
    * the end, and a write there fills the gap with zeros. */
  lemma {:induction false} WritePastEnd(s: Sys, f: nat, d: seq<byte>, ok: Os)
    requires Idle(s) && OnDisk(s, f) && ok.errno == 0 && d != []
    requires var st := StreamOf(s, Fp(s, f));
             st.canWrite && !st.append && st.pos >= |Content(s, st.ino)|
    ensures var (t, st) := (Step(s, OpWriteBinary(f, d, ok)).s, StreamOf(s, Fp(s, f)));
            var c := Content(s, st.ino);
            && Idle(t) && Content(t, st.ino) == c + Zeros(st.pos - |c|) + d
            && StreamOf(t, Fp(t, f)).pos == |Content(t, st.ino)|
  {
    var c := Content(s, StreamOf(s, Fp(s, f)).ino);
    assert d[..|d|] == d && c[..|c|] == c && c + Zeros(0) == c && c + d + [] == c + d;
  }

  /** Truncate makes the position the end. */
  lemma {:induction false} TruncateEnds(s: Sys, f: nat, os: Os)
    requires Idle(s) && OnDisk(s, f) && Rec(s, f).recSize > 0 && Rec(s, f).readable != 1 && os.errno == 0
    ensures var (t, st) := (Step(s, OpTruncate(f, os)).s, StreamOf(s, Fp(s, f)));
            var (c, d) := (Content(s, st.ino), Content(t, st.ino));
            && Idle(t) && |d| == st.pos && StreamOf(t, Fp(t, f)).pos == st.pos && Rec(t, f).buf == UNINIT
            && (forall k | 0 <= k < |d| :: d[k] == if k < |c| then c[k] else 0)
            && Step(t, OpFileSize(f)).n == Step(t, OpFilePos(f)).n && Step(t, OpEof(f)).n == 1
  {
    Cut(s, f, os);
    hide Truncate;
    EndTold(Truncate(s, f, os), f);
  }

  lemma {:induction false} Cut(s: Sys, f: nat, os: Os)
    requires Idle(s) && OnDisk(s, f) && Rec(s, f).readable != 1 && os.errno == 0
    ensures var (t, st) := (Truncate(s, f, os), StreamOf(s, Fp(s, f)));
            var (c, d) := (Content(s, st.ino), Content(t, st.ino));
            && Idle(t) && OnDisk(t, f) && Rec(t, f) == Rec(s, f).(buf := UNINIT)
            && StreamOf(t, Fp(t, f)).ino == st.ino && StreamOf(t, Fp(t, f)).pos == st.pos
            && |d| == st.pos && (forall k | 0 <= k < |d| :: d[k] == if k < |c| then c[k] else 0)
  {
  }

  lemma {:induction false} EndTold(s: Sys, f: nat)
    requires Idle(s) && OnDisk(s, f) && Rec(s, f).recSize > 0
    requires StreamOf(s, Fp(s, f)).pos == |Content(s, StreamOf(s, Fp(s, f)).ino)|
    ensures Step(s, OpFileSize(f)).n == Step(s, OpFilePos(f)).n && Step(s, OpEof(f)).n == 1
  {
  }

  // ---- names ----

  /** Erase takes the name away: a Reset then finds no file. An open file, or one never
    * assigned, is refused. */
  lemma {:induction false} EraseRemoves(s: Sys, f: nat, os: Os, later: Os)
    requires Idle(s)
    ensures var (t, name) := (Step(s, OpErase(f, os)).s, Rec(s, f).name);
            && t.inodes == s.inodes && t.files == s.files && t.streams == s.streams
            && (Rec(s, f).mode != Closed ==> t == s.(inOutRes := 102))
            && (Pending(t) ==> t.dir == s.dir)
            && (!Pending(t) ==> t.dir == s.dir - {name} && (name != "" ==> Step(t, OpReset(f, later)).s.inOutRes == 2))
  {
  }

  /** Rename moves the content: a Reset without another Assign opens what the old name
    * held, and the old name finds nothing. */
  lemma {:induction false} RenameMoves(s: Sys, f: nat, newName: string, os: Os, ok: Os)
    requires Idle(s) && 0 < |newName| <= 511 && ok.errno == 0 && !ok.isDir
    ensures var (t, name) := (Step(s, OpRename(f, newName, os)).s, Rec(s, f).name);
            && t.inodes == s.inodes && t.streams == s.streams
            && (Rec(s, f).mode != Closed ==> t == s.(inOutRes := 102))
            && (Pending(t) ==> t.dir == s.dir && t.files == s.files)
            && (!Pending(t) ==>
                  && name in s.dir && newName in t.dir && (name != newName ==> name !in t.dir)
                  && var u := Step(t, OpReset(f, ok)).s;
                     IsOpen(u, f) && CursorOf(u, f).text == Content(s, s.dir[name]))
  {
  }

  // ---- transfers that fail ----

  /** A write to a stream opened for reading reports 105 and stores nothing. */
  lemma {:induction false} WriteRefused(s: Sys, f: nat, d: seq<byte>, count: int, has: bool, os: Os)
    requires Idle(s) && IsOpen(s, f) && !StreamOf(s, Fp(s, f)).canWrite && d != [] && count > 0 && Rec(s, f).recSize > 0
    ensures var t := Step(s, OpWriteText(f, d, os)).s;
            t.inOutRes == 105 && t.inodes == s.inodes
    ensures var t := Step(s, OpWriteBinary(f, d, os)).s;
            t.inOutRes == 105 && t.inodes == s.inodes
    ensures var r := Step(s, OpBlockWrite(f, d, count, has, os));
            r.s.inOutRes == 105 && r.n == 0 && r.s.inodes == s.inodes
  {
    TextRefused(s, f, d, os);
  }

  lemma {:induction false} TextRefused(s: Sys, f: nat, d: seq<byte>, os: Os)
    requires Idle(s) && IsOpen(s, f) && !StreamOf(s, Fp(s, f)).canWrite && d != []
    ensures WriteText(s, f, d, os).inOutRes == 105 && WriteText(s, f, d, os).inodes == s.inodes
  {
  }

  /** A typed read from a stream opened for writing reports 104; a block read does not
    * tell, and is a short read of nothing. */
  lemma {:induction false} ReadRefused(s: Sys, f: nat, count: int, has: bool)
    requires Idle(s) && IsOpen(s, f) && !StreamOf(s, Fp(s, f)).canRead && count > 0 && Rec(s, f).recSize > 0
    ensures var r := Step(s, OpReadBinary(f, Rec(s, f).recSize));
            r.s.inOutRes == 104 && r.data == Zeros(Rec(s, f).recSize)
    ensures var r := Step(s, OpBlockRead(f, count, has));
            r.n == 0 && r.data == [] && r.s.inOutRes == if has then 0 else 100
  {
    hide ReadBinary, BlockRead, Zeros, IsOpen;
    NoComponent(s, f, Rec(s, f).recSize);
    NoBlock(s, f, count, has);
  }

  lemma {:induction false} NothingRead(s: Sys, f: nat, want: nat)
    requires IsOpen(s, f) && !StreamOf(s, Fp(s, f)).canRead
    ensures var r := Fread(s, f, want); r.n == 0 && r.data == [] && r.s.inOutRes == s.inOutRes
  {
  }

  lemma {:induction false} NoBlock(s: Sys, f: nat, count: int, has: bool)
    requires Idle(s) && IsOpen(s, f) && !StreamOf(s, Fp(s, f)).canRead && count > 0 && Rec(s, f).recSize > 0
    ensures var r := BlockRead(s, f, count, has);
            r.n == 0 && r.data == [] && r.s.inOutRes == if has then 0 else 100
  {
    hide Fread;
    assert 0 / Rec(s, f).recSize == 0;
    var g := FileReady(s, f).s;
    Bits.MultipleBound(count, Rec(s, f).recSize);
    NothingRead(g, f, count * Rec(g, f).recSize);
  }

  lemma {:induction false} NoComponent(s: Sys, f: nat, size: nat)
    requires Idle(s) && IsOpen(s, f) && !StreamOf(s, Fp(s, f)).canRead
    ensures var r := ReadBinary(s, f, size);
            r.s.inOutRes == 104 && r.data == Zeros(size)
  {
    assert [] + Zeros(size) == Zeros(size);
  }

  /** A write the system cuts short leaves the prefix it wrote and reports the system's
    * error, whether or not the program asks for the count; the count is of whole records. */
  lemma {:induction false} FailingBlockWrite(s: Sys, f: nat, d: seq<byte>, count: int, has: bool, os: Os)
    requires Idle(s) && OnDisk(s, f) && count > 0 && Rec(s, f).recSize > 0
    requires os.errno !in {0, EBADF} && os.done <= |d|
    requires var st := StreamOf(s, Fp(s, f));
             st.canWrite && !st.append && st.pos == |Content(s, st.ino)|
    ensures var (r, st) := (Step(s, OpBlockWrite(f, d, count, has, os)), StreamOf(s, Fp(s, f)));
            && r.s.inOutRes == PosixToRunError(os.errno) != 0
            && r.n == os.done / Rec(s, f).recSize
            && Content(r.s, st.ino) == Content(s, st.ino) + d[..os.done]
  {
    var c := Content(s, StreamOf(s, Fp(s, f)).ino);
    SpliceLast(c, d[..os.done]);
    hide Splice;
  }
}
