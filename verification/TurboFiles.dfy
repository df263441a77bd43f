/** The Turbo file runtime as a state: file records, the streams they hold, the
  * disk behind them, and the one InOutRes every operation reads first. */
module TurboFiles {
  import opened Bytes
  import opened TextWindow

  datatype Option<+T> = None | Some(value: T)

  // ---- what the operating system holds ----

  /** An open `FILE*`. `err` is the errno behind its error indicator, 0 when clear. */
  datatype Stream = Stream(ino: nat, pos: nat, canRead: bool, canWrite: bool, append: bool, err: nat)

  /** The outcome the operating system gives an operation: an errno or 0,
    * whether a name opened is a directory, and how much a failing write wrote. */
  datatype Os = Os(errno: nat, isDir: bool, done: nat)

  const STDIN := 0
  const STDOUT := 1

  const ENOENT := 2
  const EBADF := 9
  const EINVAL := 22
  const ESPIPE := 29

  /** The run-time error number reported for an errno. */
  function PosixToRunError(errno: nat): (code: nat)
    ensures errno != 0 ==> code != 0
  {
    if errno == 2 then 2
    else if errno == 36 then 3
    else if errno == 23 || errno == 24 then 4
    else if errno in {13, 30, 17, 39, 16, 20, 21} then 5
    else if errno in {32, 4, 5, 11, 28} then 101
    else if errno == 22 then 218
    else errno
  }

  // ---- the runtime's state ----

  datatype Mode = Unassigned | Closed | Input | Output

  /** A file variable. `readable` is 0 for writing, 1 for reading, 2 for both. */
  datatype FileRec = FileRec(fp: Option<nat>, buf: int, std: bool, readable: nat, name: string, mode: Mode, recSize: int)

  const FRESH := FileRec(None, UNINIT, false, 0, "", Unassigned, 0)

  datatype Sys = Sys(
    inOutRes: int, fileMode: int, exit: Option<int>,
    files: map<nat, FileRec>, streams: map<nat, Stream>, nextHandle: nat,
    dir: map<string, nat>, inodes: map<nat, seq<byte>>, nextIno: nat)

  /** A file variable nothing has touched yet is zero-initialised. */
  function Rec(s: Sys, f: nat): FileRec {
    if f in s.files then s.files[f] else FRESH
  }

  function PutRec(s: Sys, f: nat, r: FileRec): Sys {
    s.(files := s.files[f := r])
  }

  function StreamOf(s: Sys, h: nat): Stream {
    if h in s.streams then s.streams[h] else Stream(0, 0, false, false, false, 0)
  }

  function PutStream(s: Sys, h: nat, st: Stream): Sys {
    s.(streams := s.streams[h := st])
  }

  function Content(s: Sys, ino: nat): seq<byte> {
    if ino in s.inodes then s.inodes[ino] else []
  }

  predicate IsOpen(s: Sys, f: nat) { Rec(s, f).fp.Some? }

  /** The stream of an open file. */
  function Fp(s: Sys, f: nat): nat
    requires IsOpen(s, f)
  {
    Rec(s, f).fp.value
  }

  // ---- the error latch ----

  predicate Pending(s: Sys) { s.inOutRes != 0 }

  function SetIfClear(s: Sys, code: int): Sys {
    if s.inOutRes == 0 then s.(inOutRes := code) else s
  }

  datatype Readiness = Readiness(s: Sys, ready: bool)

  /** The gate in front of every operation on an open file. */
  function FileReady(s: Sys, f: nat): (r: Readiness)
    ensures r.ready ==> IsOpen(r.s, f)
  {
    if Pending(s) then Readiness(s, false)
    else if !IsOpen(s, f) then Readiness(SetIfClear(s, 103), false)
    else Readiness(PutStream(s, Fp(s, f), StreamOf(s, Fp(s, f)).(err := 0)), true)
  }

  function TrapOnStreamError(s: Sys, f: nat, wantWrite: bool): Sys
    requires IsOpen(s, f)
  {
    var err := StreamOf(s, Fp(s, f)).err;
    if err == 0 then s
    else if err == EBADF then SetIfClear(s, if wantWrite then 105 else 104)
    else SetIfClear(s, PosixToRunError(err))
  }

  // ---- opening and closing ----

  function CloseStream(s: Sys, f: nat): Sys {
    var r := Rec(s, f);
    PutRec(s, f, r.(fp := None, std := false))
      .(streams := if r.fp.Some? && r.fp.value > STDOUT then s.streams - {r.fp.value} else s.streams)
  }

  /** Opens a stream on an existing inode for `f`. */
  function Attach(s: Sys, f: nat, ino: nat, canRead: bool, canWrite: bool, append: bool): Sys {
    PutRec(s, f, Rec(s, f).(fp := Some(s.nextHandle)))
      .(streams := s.streams[s.nextHandle := Stream(ino, 0, canRead, canWrite, append, 0)],
        nextHandle := s.nextHandle + 1)
  }

  /** The errno opening a name that has to exist fails with, or 0. */
  function OpenError(s: Sys, name: string, os: Os): nat {
    if name !in s.dir then ENOENT else os.errno
  }

  function TruncateTo(name: string): string {
    if |name| > 511 then name[..511] else name
  }

  function Assign(s: Sys, f: nat, name: string): Sys {
    var t := CloseStream(s, f);
    PutRec(t, f, Rec(t, f).(name := TruncateTo(name), mode := Closed))
  }

  function Opened(s: Sys, f: nat, readable: nat, mode: Mode): Sys {
    PutRec(s, f, Rec(s, f).(buf := UNINIT, readable := readable, mode := mode))
  }

  /** Attaches `f` to a standard stream. */
  function AttachStd(s: Sys, f: nat, h: nat): Sys {
    PutRec(s, f, Rec(s, f).(fp := Some(h), std := true))
  }

  function EffectiveFileMode(s: Sys, f: nat): int {
    if Rec(s, f).recSize > 0 then s.fileMode else 0
  }

  function Reset(s: Sys, f: nat, os: Os): Sys {
    if Pending(s) then s
    else
      var t := CloseStream(s, f);
      var name := Rec(t, f).name;
      var fileMode := EffectiveFileMode(t, f);
      if name == "" then Opened(AttachStd(t, f, STDIN), f, 1, Input)
      else if OpenError(t, name, os) != 0 then SetIfClear(t, PosixToRunError(OpenError(t, name, os)))
      else if os.isDir then SetIfClear(t, 5)
      else Opened(Attach(t, f, t.dir[name], fileMode != 1, fileMode == 1 || fileMode == 2, false), f,
                  if fileMode == 1 then 0 else if fileMode == 2 then 2 else 1, Input)
  }

  function Rewrite(s: Sys, f: nat, os: Os): Sys {
    if Pending(s) then s
    else
      var t := CloseStream(s, f);
      var name := Rec(t, f).name;
      var readWrite := Rec(t, f).recSize > 0;
      if name == "" then Opened(AttachStd(t, f, STDOUT), f, 0, Output)
      else if os.errno != 0 then SetIfClear(t, PosixToRunError(os.errno))
      else
        var u := if name in t.dir then t.(inodes := t.inodes[t.dir[name] := []])
                 else t.(dir := t.dir[name := t.nextIno], inodes := t.inodes[t.nextIno := []], nextIno := t.nextIno + 1);
        Opened(Attach(u, f, u.dir[name], readWrite, true, false), f, if readWrite then 2 else 0, Output)
  }

  function Append(s: Sys, f: nat, os: Os): Sys {
    if Pending(s) then s
    else
      var t := CloseStream(s, f);
      var name := Rec(t, f).name;
      if name == "" then Opened(AttachStd(t, f, STDOUT), f, 0, Output)
      else if OpenError(t, name, os) != 0 then SetIfClear(t, PosixToRunError(OpenError(t, name, os)))
      else Opened(Attach(t, f, t.dir[name], false, true, true), f, 0, Output)
  }

  function WithRecSize(s: Sys, f: nat, recSize: int): Sys {
    PutRec(s, f, Rec(s, f).(recSize := recSize))
  }

  function ResetSized(s: Sys, f: nat, recSize: int, os: Os): Sys {
    if Pending(s) then s
    else if recSize == 0 then SetIfClear(CloseStream(s, f), 2)
    else Reset(WithRecSize(s, f, recSize), f, os)
  }

  function RewriteSized(s: Sys, f: nat, recSize: int, os: Os): Sys {
    if Pending(s) then s
    else if recSize == 0 then SetIfClear(CloseStream(s, f), 2)
    else Rewrite(WithRecSize(s, f, recSize), f, os)
  }

  function Close(s: Sys, f: nat): Sys {
    var g := FileReady(s, f);
    if !g.ready then g.s
    else
      var t := CloseStream(g.s, f);
      PutRec(t, f, Rec(t, f).(buf := UNINIT, readable := 0, mode := Closed))
  }

  // ---- positions and blocks ----

  predicate IsConsole(st: Stream) { st.ino <= STDOUT }

  function DropWindow(s: Sys, f: nat): Sys {
    PutRec(s, f, Rec(s, f).(buf := UNINIT))
  }

  /** The new state, what the operation answers, and the bytes it delivers. */
  datatype Outcome = Outcome(s: Sys, n: int, data: seq<byte> := [])

  function FilePos(s: Sys, f: nat): Outcome {
    var g := FileReady(s, f);
    if !g.ready then Outcome(g.s, 0)
    else
      var (st, recSize) := (StreamOf(g.s, Fp(g.s, f)), Rec(g.s, f).recSize);
      Outcome(g.s, if IsConsole(st) || recSize <= 0 then 0 else st.pos / recSize)
  }

  function FileSize(s: Sys, f: nat): Outcome {
    var g := FileReady(s, f);
    if !g.ready then Outcome(g.s, 0)
    else
      var (st, recSize) := (StreamOf(g.s, Fp(g.s, f)), Rec(g.s, f).recSize);
      Outcome(g.s, if IsConsole(st) || recSize <= 0 then 0 else |Content(g.s, st.ino)| / recSize)
  }

  predicate InInt64(x: int) { -0x8000_0000_0000_0000 <= x < 0x8000_0000_0000_0000 }

  function Seek(s: Sys, f: nat, n: int): Sys {
    var g := FileReady(s, f);
    if !g.ready then g.s
    else
      var (h, recSize) := (Fp(g.s, f), Rec(g.s, f).recSize);
      var offset := n * (if recSize > 0 then recSize else 1);
      if !InInt64(offset) then SetIfClear(g.s, 218)
      else if IsConsole(StreamOf(g.s, h)) then SetIfClear(g.s, PosixToRunError(ESPIPE))
      else if offset < 0 then SetIfClear(g.s, PosixToRunError(EINVAL))
      else DropWindow(PutStream(g.s, h, StreamOf(g.s, h).(pos := offset)), f)
  }

  function Zeros(n: nat): (z: seq<byte>)
    ensures |z| == n
  {
    seq(n, _ => 0)
  }

  function Truncate(s: Sys, f: nat, os: Os): Sys {
    var g := FileReady(s, f);
    if !g.ready then g.s
    else
      var st := StreamOf(g.s, Fp(g.s, f));
      if Rec(g.s, f).readable == 1 then SetIfClear(g.s, 103)
      else if IsConsole(st) then SetIfClear(g.s, PosixToRunError(ESPIPE))
      else if os.errno != 0 then SetIfClear(g.s, PosixToRunError(os.errno))
      else
        var c := Content(g.s, st.ino);
        var kept := if st.pos <= |c| then c[..st.pos] else c + Zeros(st.pos - |c|);
        DropWindow(g.s.(inodes := g.s.inodes[st.ino := kept]), f)
  }

  /** Overwrites `d` into `c` at `p`, filling a gap with zeros. */
  function Splice(c: seq<byte>, p: nat, d: seq<byte>): seq<byte> {
    if d == [] then c
    else if p > |c| then c + Zeros(p - |c|) + d
    else c[..p] + d + (if p + |d| <= |c| then c[p + |d|..] else [])
  }

  /** A stdio write: nothing and EBADF on a stream opened for reading; a failing
    * system call leaves a prefix written and its errno in the indicator. */
  function Fwrite(s: Sys, f: nat, data: seq<byte>, os: Os): Outcome
    requires IsOpen(s, f)
  {
    var h := Fp(s, f);
    var st := StreamOf(s, h);
    if !st.canWrite then Outcome(PutStream(s, h, st.(err := EBADF)), 0)
    else
      var n := if os.errno == 0 || os.done > |data| then |data| else os.done;
      var c := Content(s, st.ino);
      var p := if st.append then |c| else st.pos;
      Outcome(PutStream(s, h, st.(pos := p + n, err := if os.errno != 0 then os.errno else st.err))
                .(inodes := s.inodes[st.ino := Splice(c, p, data[..n])]), n)
  }

  /** A stdio read of up to `want` bytes. */
  function Fread(s: Sys, f: nat, want: nat): Outcome
    requires IsOpen(s, f)
  {
    var h := Fp(s, f);
    var st := StreamOf(s, h);
    var c := Content(s, st.ino);
    if !st.canRead then Outcome(PutStream(s, h, st.(err := EBADF)), 0)
    else
      var n := if st.pos >= |c| then 0 else if st.pos + want <= |c| then want else |c| - st.pos;
      Outcome(PutStream(s, h, st.(pos := st.pos + n)), n, if n == 0 then [] else c[st.pos..st.pos + n])
  }

  function Abort(s: Sys, code: int): Sys {
    s.(exit := Some(code))
  }

  function BlockRead(s: Sys, f: nat, count: int, hasResult: bool): Outcome {
    var g := FileReady(s, f);
    if !g.ready || count <= 0 then Outcome(g.s, 0)
    else
      var recSize := Rec(g.s, f).recSize;
      if recSize < 0 then Outcome(Abort(g.s, 217), 0)
      else if recSize == 0 then Outcome(g.s, 0)
      else
        var r := Fread(g.s, f, count * recSize);
        var actual := r.n / recSize;
        var t := DropWindow(r.s, f);
        Outcome(if !hasResult && actual < count then SetIfClear(t, 100) else t, actual, r.data)
  }

  function BlockWrite(s: Sys, f: nat, data: seq<byte>, count: int, hasResult: bool, os: Os): Outcome {
    var g := FileReady(s, f);
    if !g.ready || count <= 0 then Outcome(g.s, 0)
    else
      var recSize := Rec(g.s, f).recSize;
      if recSize < 0 then Outcome(Abort(g.s, 217), 0)
      else if recSize == 0 then Outcome(g.s, 0)
      else
        var r := Fwrite(g.s, f, data, os);
        var actual := r.n / recSize;
        var t := DropWindow(TrapOnStreamError(r.s, f, true), f);
        Outcome(if !hasResult && actual < count then SetIfClear(t, 101) else t, actual)
  }

  function Erase(s: Sys, f: nat, os: Os): Sys {
    if Pending(s) then s
    else if Rec(s, f).mode != Closed then SetIfClear(s, 102)
    else if OpenError(s, Rec(s, f).name, os) != 0 then SetIfClear(s, PosixToRunError(OpenError(s, Rec(s, f).name, os)))
    else s.(dir := s.dir - {Rec(s, f).name})
  }

  function Rename(s: Sys, f: nat, newName: string, os: Os): Sys {
    var name := Rec(s, f).name;
    if Pending(s) then s
    else if Rec(s, f).mode != Closed then SetIfClear(s, 102)
    else if OpenError(s, name, os) != 0 then SetIfClear(s, PosixToRunError(OpenError(s, name, os)))
    else PutRec(s.(dir := (s.dir - {name})[newName := s.dir[name]]), f, Rec(s, f).(name := TruncateTo(newName)))
  }

  function Flush(s: Sys, f: nat, os: Os): Sys {
    var g := FileReady(s, f);
    if !g.ready then g.s
    else
      var t := if Rec(g.s, f).readable == 1 then SetIfClear(g.s, 105) else g.s;
      if os.errno != 0 then SetIfClear(t, PosixToRunError(os.errno)) else t
  }

  // ---- text ----

  function CursorOf(s: Sys, f: nat): Cursor
    requires IsOpen(s, f)
  {
    var st := StreamOf(s, Fp(s, f));
    Cursor(Content(s, st.ino), st.pos, st.canRead, Rec(s, f).buf, st.err != 0)
  }

  /** Stores a moved cursor back into the record and its stream. */
  function PutCursor(s: Sys, f: nat, c: Cursor): Sys
    requires IsOpen(s, f)
  {
    var h := Fp(s, f);
    var st := StreamOf(s, h);
    PutRec(PutStream(s, h, st.(pos := c.pos, err := if c.err && st.err == 0 then EBADF else st.err)), f, Rec(s, f).(buf := c.buf))
  }

  predicate IsReadable(s: Sys, f: nat) { Rec(s, f).readable != 0 }

  datatype Answer = Answer(s: Sys, b: bool)

  function Eof(s: Sys, f: nat): Answer {
    var g := FileReady(s, f);
    if !g.ready || !IsReadable(g.s, f) then Answer(g.s, true)
    else if Rec(g.s, f).recSize > 0 then
      var p := FilePos(g.s, f);
      var n := FileSize(p.s, f);
      Answer(n.s, p.n >= n.n)
    else
      var c := EnsurePrimed(CursorOf(g.s, f), true);
      Answer(PutCursor(g.s, f, c), c.buf == EOF)
  }

  function Eoln(s: Sys, f: nat): Answer {
    var g := FileReady(s, f);
    if !g.ready then Answer(g.s, true)
    else
      var c := EnsurePrimed(CursorOf(g.s, f), IsReadable(g.s, f));
      Answer(PutCursor(g.s, f, c), c.buf == EOF || IsMarker(c.buf))
  }

  function SeekEofOrEoln(s: Sys, f: nat, crossLines: bool): Answer {
    var g := FileReady(s, f);
    if !g.ready || !IsReadable(g.s, f) then Answer(g.s, true)
    else
      var c := SkipWhitespace(EnsurePrimed(CursorOf(g.s, f), true), crossLines);
      Answer(PutCursor(g.s, f, c), c.buf == EOF || (!crossLines && IsMarker(c.buf)))
  }

  function Readln(s: Sys, f: nat): Sys {
    var g := FileReady(s, f);
    if !g.ready then g.s else PutCursor(g.s, f, ReadlnTurbo(CursorOf(g.s, f), IsReadable(g.s, f)))
  }

  function ReadChar(s: Sys, f: nat): Outcome {
    var g := FileReady(s, f);
    if !g.ready then Outcome(g.s, 0)
    else
      var c := EnsurePrimed(CursorOf(g.s, f), IsReadable(g.s, f));
      if c.buf == EOF then Outcome(PutCursor(g.s, f, c), 26)
      else Outcome(TrapOnStreamError(PutCursor(g.s, f, Advance(c)), f, false), Next(c))
  }

  datatype Token = Token(c: Cursor, chars: seq<int>)

  /** The characters up to the next blank or marker. */
  function TakeToken(c: Cursor): Token
    decreases Ahead(c)
  {
    if c.buf == EOF || IsBlank(c.buf) || IsMarker(c.buf) then Token(c, [])
    else
      var t := TakeToken(Advance(c));
      Token(t.c, [Next(c)] + t.chars)
  }

  /** A numeric read; `parse` is the C library's conversion of a whole token. */
  function ReadNumber(s: Sys, f: nat, parse: seq<int> -> Option<int>): Outcome {
    var g := FileReady(s, f);
    if !g.ready then Outcome(g.s, 0)
    else
      var c := CursorOf(g.s, f);
      var d := SkipWhitespace(if c.buf == UNINIT then Prime(c) else c, true);
      var t := TakeToken(d);
      var u := TrapOnStreamError(PutCursor(g.s, f, t.c), f, false);
      if d.buf == EOF then Outcome(u, 0)
      else match parse(t.chars)
           case None => Outcome(SetIfClear(u, 106), 0)
           case Some(v) => Outcome(u, v)
  }

  /** A typed read: the component is cleared first, so what is missing is zeros. */
  function ReadBinary(s: Sys, f: nat, size: nat): Outcome {
    var g := FileReady(s, f);
    if !g.ready then Outcome(g.s, 0)
    else
      var r := Fread(g.s, f, size);
      var t := TrapOnStreamError(r.s, f, false);
      var u := if r.n < size || size == 0 then SetIfClear(t, 100) else t;
      Outcome(PutCursor(u, f, Prime(CursorOf(u, f))), 0, Filled(r.data, size))
  }

  function Filled(data: seq<byte>, size: nat): seq<byte> {
    if |data| < size then data + Zeros(size - |data|) else data
  }

  /** Every text writer: `data` is what it formatted. */
  function WriteText(s: Sys, f: nat, data: seq<byte>, os: Os): Sys {
    var g := FileReady(s, f);
    if !g.ready || data == [] then g.s
    else TrapOnStreamError(Fwrite(g.s, f, data, os).s, f, true)
  }

  function WriteBinary(s: Sys, f: nat, data: seq<byte>, os: Os): Sys {
    var g := FileReady(s, f);
    if !g.ready then g.s
    else DropWindow(TrapOnStreamError(Fwrite(g.s, f, data, os).s, f, true), f)
  }

  function IoResult(s: Sys): Outcome {
    Outcome(s.(inOutRes := 0), s.inOutRes)
  }

  function IoCheck(s: Sys): Sys {
    var r := IoResult(s);
    if r.n != 0 then Abort(r.s, r.n) else r.s
  }

  // ---- one statement of a program ----

  datatype Op =
    | OpAssign(f: nat, name: string)
    | OpReset(f: nat, os: Os) | OpRewrite(f: nat, os: Os) | OpAppend(f: nat, os: Os)
    | OpResetSized(f: nat, recSize: int, os: Os) | OpRewriteSized(f: nat, recSize: int, os: Os)
    | OpClose(f: nat)
    | OpFilePos(f: nat) | OpFileSize(f: nat) | OpSeek(f: nat, n: int) | OpTruncate(f: nat, os: Os)
    | OpBlockRead(f: nat, count: int, hasResult: bool)
    | OpBlockWrite(f: nat, data: seq<byte>, count: int, hasResult: bool, os: Os)
    | OpErase(f: nat, os: Os) | OpRename(f: nat, name: string, os: Os) | OpFlush(f: nat, os: Os)
    | OpEof(f: nat) | OpEoln(f: nat) | OpSeekEof(f: nat) | OpSeekEoln(f: nat)
    | OpReadln(f: nat) | OpReadChar(f: nat) | OpReadNumber(f: nat, parse: seq<int> -> Option<int>)
    | OpReadBinary(f: nat, size: nat)
    | OpWriteText(f: nat, data: seq<byte>, os: Os) | OpWriteBinary(f: nat, data: seq<byte>, os: Os)
    | OpIoResult
    | OpIoCheck

  /** A step's new state, with what it answers: Booleans as 0 and 1. */
  function Step(s: Sys, op: Op): Outcome {
    if s.exit.Some? then Outcome(s, 0)
    else match op
      case OpAssign(f, name) => Outcome(Assign(s, f, name), 0)
      case OpReset(f, os) => Outcome(Reset(s, f, os), 0)
      case OpRewrite(f, os) => Outcome(Rewrite(s, f, os), 0)
      case OpAppend(f, os) => Outcome(Append(s, f, os), 0)
      case OpResetSized(f, n, os) => Outcome(ResetSized(s, f, n, os), 0)
      case OpRewriteSized(f, n, os) => Outcome(RewriteSized(s, f, n, os), 0)
      case OpClose(f) => Outcome(Close(s, f), 0)
      case OpFilePos(f) => FilePos(s, f)
      case OpFileSize(f) => FileSize(s, f)
      case OpSeek(f, n) => Outcome(Seek(s, f, n), 0)
      case OpTruncate(f, os) => Outcome(Truncate(s, f, os), 0)
      case OpBlockRead(f, n, has) => BlockRead(s, f, n, has)
      case OpBlockWrite(f, d, n, has, os) => BlockWrite(s, f, d, n, has, os)
      case OpErase(f, os) => Outcome(Erase(s, f, os), 0)
      case OpRename(f, name, os) => Outcome(Rename(s, f, name, os), 0)
      case OpFlush(f, os) => Outcome(Flush(s, f, os), 0)
      case OpEof(f) => FromAnswer(Eof(s, f))
      case OpEoln(f) => FromAnswer(Eoln(s, f))
      case OpSeekEof(f) => FromAnswer(SeekEofOrEoln(s, f, true))
      case OpSeekEoln(f) => FromAnswer(SeekEofOrEoln(s, f, false))
      case OpReadln(f) => Outcome(Readln(s, f), 0)
      case OpReadChar(f) => ReadChar(s, f)
      case OpReadNumber(f, parse) => ReadNumber(s, f, parse)
      case OpReadBinary(f, n) => ReadBinary(s, f, n)
      case OpWriteText(f, d, os) => Outcome(WriteText(s, f, d, os), 0)
      case OpWriteBinary(f, d, os) => Outcome(WriteBinary(s, f, d, os), 0)
      case OpIoResult => IoResult(s)
      case OpIoCheck => Outcome(IoCheck(s), 0)
  }

  function FromAnswer(a: Answer): Outcome {
    Outcome(a.s, if a.b then 1 else 0)
  }

  function Run(s: Sys, ops: seq<Op>): Sys
    decreases |ops|
  {
    if ops == [] then s else Run(Step(s, ops[0]).s, ops[1..])
  }
}
