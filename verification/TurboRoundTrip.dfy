/** What is written to a file is there to be read: across Rewrite, any number of
  * writes, Close and Reset, and across a Seek back. */
module TurboRoundTrip {
  import Bits
  import opened Bytes
  import opened TextWindow
  import opened TurboFiles
  import opened TurboText

  const OK := Os(0, false, 0)

  /** `f` stands at the end of `c`, which is all that is stored under its name. */
  ghost predicate Writing(s: Sys, f: nat, name: string, c: seq<byte>) {
    && !Pending(s) && s.exit.None? && IsOpen(s, f) && Rec(s, f).name == name != ""
    && name in s.dir && Fp(s, f) > STDOUT
    && var st := StreamOf(s, Fp(s, f));
       && st.ino == s.dir[name] && st.pos == |c| && st.canWrite && !st.append && st.err == 0
       && Content(s, st.ino) == c
  }

  /** A disk whose files are not the consoles. */
  predicate DiskOk(s: Sys) {
    s.nextHandle > STDOUT && s.nextIno > STDOUT && forall n | n in s.dir :: s.dir[n] > STDOUT
  }

  lemma RunTwo(s: Sys, a: Op, b: Op)
    ensures Run(s, [a, b]) == Step(Step(s, a).s, b).s
  {
    hide Step;
    assert [a, b][1..] == [b] && [b][1..] == [];
    assert Run(Step(s, a).s, [b]) == Run(Step(Step(s, a).s, b).s, []);
  }

  lemma Assigned(s: Sys, f: nat, name: string)
    requires s.exit.None?
    ensures Step(s, OpAssign(f, name)).s == Assign(s, f, name) && Assign(s, f, name).exit.None?
  {
  }

  lemma AssignOpens(s: Sys, f: nat, name: string)
    requires s.exit.None?
    ensures Run(s, [OpAssign(f, name), OpRewrite(f, OK)]) == Rewrite(Assign(s, f, name), f, OK)
  {
    hide Rewrite, Run, Assign;
    Assigned(s, f, name);
    RunTwo(s, OpAssign(f, name), OpRewrite(f, OK));
  }

  lemma AssignOpensSized(s: Sys, f: nat, name: string, recSize: int)
    requires s.exit.None?
    ensures Run(s, [OpAssign(f, name), OpRewriteSized(f, recSize, OK)]) == RewriteSized(Assign(s, f, name), f, recSize, OK)
  {
    hide RewriteSized, Run, Assign;
    Assigned(s, f, name);
    RunTwo(s, OpAssign(f, name), OpRewriteSized(f, recSize, OK));
  }

  lemma Closed(s: Sys, f: nat)
    requires s.exit.None?
    ensures Step(s, OpClose(f)).s == Close(s, f) && Close(s, f).exit.None?
  {
  }

  lemma CloseOpens(s: Sys, f: nat)
    requires s.exit.None?
    ensures Run(s, [OpClose(f), OpReset(f, OK)]) == Reset(Close(s, f), f, OK)
  {
    hide Reset, Close, Run;
    Closed(s, f);
    RunTwo(s, OpClose(f), OpReset(f, OK));
  }

  lemma CloseOpensSized(s: Sys, f: nat, recSize: int)
    requires s.exit.None?
    ensures Run(s, [OpClose(f), OpResetSized(f, recSize, OK)]) == ResetSized(Close(s, f), f, recSize, OK)
  {
    hide ResetSized, Close, Run;
    Closed(s, f);
    RunTwo(s, OpClose(f), OpResetSized(f, recSize, OK));
  }

  lemma {:induction false} RewriteStarts(s: Sys, f: nat, name: string)
    requires !Pending(s) && s.exit.None? && DiskOk(s) && 0 < |name| <= 511
    ensures var r := Run(s, [OpAssign(f, name), OpRewrite(f, OK)]);
            Writing(r, f, name, []) && Rec(r, f).recSize == Rec(s, f).recSize
  {
    hide Run, Step;
    AssignOpens(s, f, name);
  }

  lemma SpliceAtEnd(c: seq<byte>, d: seq<byte>)
    ensures Splice(c, |c|, d) == c + d
  {
    assert c[..|c|] == c;
    assert c + d + [] == c + d;
  }

  lemma {:induction false} WriteAdds(s: Sys, f: nat, name: string, c: seq<byte>, d: seq<byte>)
    requires Writing(s, f, name, c)
    ensures Writing(Step(s, OpWriteText(f, d, OK)).s, f, name, c + d)
  {
    SpliceAtEnd(c, d);
    assert d[..|d|] == d;
    assert c + [] == c;
    hide Splice;
  }

  function Flatten(ds: seq<seq<byte>>): seq<byte> {
    if ds == [] then [] else ds[0] + Flatten(ds[1..])
  }

  function WriteAll(s: Sys, f: nat, ds: seq<seq<byte>>): Sys
    decreases |ds|
  {
    if ds == [] then s else WriteAll(Step(s, OpWriteText(f, ds[0], OK)).s, f, ds[1..])
  }

  lemma {:induction false} WritesAdd(s: Sys, f: nat, name: string, c: seq<byte>, ds: seq<seq<byte>>)
    requires Writing(s, f, name, c)
    ensures Writing(WriteAll(s, f, ds), f, name, c + Flatten(ds))
    decreases |ds|
  {
    hide Writing, Step;
    if ds == [] {
      assert c + [] == c;
    } else {
      WriteAdds(s, f, name, c, ds[0]);
      WritesAdd(Step(s, OpWriteText(f, ds[0], OK)).s, f, name, c + ds[0], ds[1..]);
      assert c + ds[0] + Flatten(ds[1..]) == c + Flatten(ds);
    }
  }

  lemma {:induction false} ReopensAtStart(s: Sys, f: nat, name: string, c: seq<byte>)
    requires Writing(s, f, name, c) && Rec(s, f).recSize <= 0
    ensures var t := Run(s, [OpClose(f), OpReset(f, OK)]);
            && Reading(t, f, c, 0)
            && CursorOf(t, f) == Cursor(c, 0, true, UNINIT, false)
  {
    CloseOpens(s, f);
    hide Splice, Fwrite, Run;
  }

  lemma {:induction false} WritingKeepsSize(s: Sys, f: nat, ds: seq<seq<byte>>)
    ensures Rec(WriteAll(s, f, ds), f).recSize == Rec(s, f).recSize
    decreases |ds|
  {
    if ds != [] {
      WriteKeepsSize(s, f, ds[0]);
      WritingKeepsSize(Step(s, OpWriteText(f, ds[0], OK)).s, f, ds[1..]);
    }
  }

  lemma WriteKeepsSize(s: Sys, f: nat, d: seq<byte>)
    ensures Rec(Step(s, OpWriteText(f, d, OK)).s, f) == Rec(s, f)
  {
    hide Splice;
  }

  /** Text written to a new file and reopened is the text: a reader starts in front
    * of all of it and nothing else. */
  lemma {:induction false} TextComesBack(s: Sys, f: nat, name: string, ds: seq<seq<byte>>)
    requires !Pending(s) && s.exit.None? && DiskOk(s) && 0 < |name| <= 511 && Rec(s, f).recSize <= 0
    ensures var w := WriteAll(Run(s, [OpAssign(f, name), OpRewrite(f, OK)]), f, ds);
            var t := Run(w, [OpClose(f), OpReset(f, OK)]);
            && Reading(t, f, Flatten(ds), 0) && CursorOf(t, f) == Cursor(Flatten(ds), 0, true, UNINIT, false)
            && ReadlnsToEof(CursorOf(t, f)) == |SplitLines(Flatten(ds))|
  {
    var r := Run(s, [OpAssign(f, name), OpRewrite(f, OK)]);
    RewriteStarts(s, f, name);
    hide Run, Writing, Step;
    WritesAdd(r, f, name, [], ds);
    WritingKeepsSize(r, f, ds);
    assert [] + Flatten(ds) == Flatten(ds);
    ReopensAtStart(WriteAll(r, f, ds), f, name, Flatten(ds));
    ReadlnsCountLines(Cursor(Flatten(ds), 0, true, UNINIT, false));
    assert Flatten(ds)[0..] == Flatten(ds);
  }

  // ---- blocks and components ----

  ghost predicate Blocks(s: Sys, f: nat, name: string, recSize: int, c: seq<byte>) {
    Writing(s, f, name, c) && Rec(s, f).recSize == recSize && IsReadable(s, f)
    && StreamOf(s, Fp(s, f)).canRead && StreamOf(s, Fp(s, f)).ino > STDOUT
  }

  lemma {:induction false} SizedStarts(s: Sys, f: nat, name: string, recSize: int)
    requires !Pending(s) && s.exit.None? && DiskOk(s) && 0 < |name| <= 511 && recSize > 0
    ensures var t := Run(s, [OpAssign(f, name), OpRewriteSized(f, recSize, OK)]);
            Blocks(t, f, name, recSize, []) && t.fileMode == s.fileMode
  {
    hide Run, Step;
    AssignOpensSized(s, f, name, recSize);
  }

  lemma {:induction false} Whole(count: int, recSize: int)
    requires recSize > 0
    ensures count * recSize / recSize == count
  {
    Bits.ModUnique(count * recSize, count, 0, recSize);
  }

  lemma {:induction false} BlockWritten(s: Sys, f: nat, name: string, recSize: int, c: seq<byte>, d: seq<byte>)
    requires Blocks(s, f, name, recSize, c) && recSize > 0 && |d| % recSize == 0
    ensures var w := Step(s, OpBlockWrite(f, d, |d| / recSize, false, OK));
            w.n == |d| / recSize && Blocks(w.s, f, name, recSize, c + d) && w.s.fileMode == s.fileMode
  {
    SpliceAtEnd(c, d);
    assert d[..|d|] == d && c + [] == c;
    assert |d| == |d| / recSize * recSize;
    assert |d| / recSize <= 0 ==> d == [];
    hide Splice;
  }

  lemma {:induction false} ComponentWritten(s: Sys, f: nat, name: string, recSize: int, c: seq<byte>, d: seq<byte>)
    requires Blocks(s, f, name, recSize, c)
    ensures var w := Step(s, OpWriteBinary(f, d, OK)).s;
            Blocks(w, f, name, recSize, c + d) && w.fileMode == s.fileMode
  {
    SpliceAtEnd(c, d);
    assert d[..|d|] == d && c + [] == c;
    hide Splice;
  }

  /** Any number of writes, typed ones or blocks of whole records. */
  function Write(s: Sys, f: nat, typed: bool, recSize: int, d: seq<byte>): Sys
    requires recSize > 0
  {
    Step(s, if typed then OpWriteBinary(f, d, OK) else OpBlockWrite(f, d, |d| / recSize, false, OK)).s
  }

  function WriteBlocks(s: Sys, f: nat, typed: bool, recSize: int, ds: seq<seq<byte>>): Sys
    requires recSize > 0
    decreases |ds|
  {
    if ds == [] then s else WriteBlocks(Write(s, f, typed, recSize, ds[0]), f, typed, recSize, ds[1..])
  }

  predicate WholeRecords(ds: seq<seq<byte>>, recSize: int)
    requires recSize > 0
  {
    forall i | 0 <= i < |ds| :: |ds[i]| % recSize == 0
  }

  lemma {:induction false} BlocksAdd(s: Sys, f: nat, name: string, typed: bool, recSize: int, c: seq<byte>, ds: seq<seq<byte>>)
    requires Blocks(s, f, name, recSize, c) && recSize > 0 && WholeRecords(ds, recSize)
    ensures var w := WriteBlocks(s, f, typed, recSize, ds);
            Blocks(w, f, name, recSize, c + Flatten(ds)) && w.fileMode == s.fileMode
    decreases |ds|
  {
    hide Blocks, Step;
    if ds == [] {
      assert c + [] == c;
    } else {
      BlockWritten(s, f, name, recSize, c, ds[0]);
      ComponentWritten(s, f, name, recSize, c, ds[0]);
      assert WholeRecords(ds[1..], recSize) by {
        assert forall i | 0 <= i < |ds| - 1 :: ds[1..][i] == ds[i + 1];
      }
      BlocksAdd(Write(s, f, typed, recSize, ds[0]), f, name, typed, recSize, c + ds[0], ds[1..]);
      assert c + ds[0] + Flatten(ds[1..]) == c + Flatten(ds);
    }
  }

  /** `f` can be read in records, and `c` is what it holds. */
  ghost predicate Stored(s: Sys, f: nat, recSize: int, c: seq<byte>) {
    && !Pending(s) && s.exit.None? && IsOpen(s, f) && IsReadable(s, f) && Rec(s, f).recSize == recSize > 0
    && var st := StreamOf(s, Fp(s, f));
       st.canRead && st.ino > STDOUT && Content(s, st.ino) == c
  }

  function PosOf(s: Sys, f: nat): nat
    requires IsOpen(s, f)
  {
    StreamOf(s, Fp(s, f)).pos
  }

  /** What a program reads from: the file as it was written, or closed and opened again. */
  function Reread(s: Sys, f: nat, recSize: int, again: bool): Sys {
    if again then Run(s, [OpClose(f), OpResetSized(f, recSize, OK)]) else s
  }

  lemma {:induction false} BlocksStored(s: Sys, f: nat, name: string, recSize: int, c: seq<byte>, again: bool)
    requires Blocks(s, f, name, recSize, c) && recSize > 0 && (again ==> s.fileMode != 1)
    ensures Stored(Reread(s, f, recSize, again), f, recSize, c)
  {
    hide Run, Step;
    CloseOpensSized(s, f, recSize);
  }

  lemma {:induction false} SeekStored(s: Sys, f: nat, recSize: int, c: seq<byte>, k: nat)
    requires Stored(s, f, recSize, c) && InInt64(k * recSize)
    ensures var t := Step(s, OpSeek(f, k)).s;
            Stored(t, f, recSize, c) && PosOf(t, f) == k * recSize
  {
    Bits.MultipleBound(k, recSize);
    assert k == 0 ==> k * recSize == 0;
  }

  /** The bytes a file of `c` has at `p`, at most `n` of them. */
  function Part(c: seq<byte>, p: nat, n: nat): seq<byte> {
    if p >= |c| then [] else if p + n <= |c| then c[p..p + n] else c[p..]
  }

  lemma {:induction false} BlockReadPart(s: Sys, f: nat, recSize: int, c: seq<byte>, m: int, has: bool)
    requires Stored(s, f, recSize, c) && m > 0
    ensures m * recSize >= 0
    ensures var r := Step(s, OpBlockRead(f, m, has));
            && r.data == Part(c, PosOf(s, f), m * recSize)
            && r.n == |r.data| / recSize && r.s.exit.None?
            && r.s.inOutRes == if !has && r.n < m then 100 else 0
  {
    Bits.MultipleBound(m, recSize);
    var p := PosOf(s, f);
    assert p < |c| < p + m * recSize ==> c[p..|c|] == c[p..];
  }

  lemma {:induction false} WrittenBlocks(s: Sys, f: nat, name: string, typed: bool, recSize: int, ds: seq<seq<byte>>, again: bool)
    requires !Pending(s) && s.exit.None? && DiskOk(s) && 0 < |name| <= 511 && (again ==> s.fileMode != 1)
    requires recSize > 0 && WholeRecords(ds, recSize)
    ensures var w := WriteBlocks(Run(s, [OpAssign(f, name), OpRewriteSized(f, recSize, OK)]), f, typed, recSize, ds);
            Stored(Reread(w, f, recSize, again), f, recSize, Flatten(ds))
  {
    var o := Run(s, [OpAssign(f, name), OpRewriteSized(f, recSize, OK)]);
    SizedStarts(s, f, name, recSize);
    hide Run, Blocks, Stored, Reread, Write;
    BlocksAdd(o, f, name, typed, recSize, [], ds);
    assert [] + Flatten(ds) == Flatten(ds);
    BlocksStored(WriteBlocks(o, f, typed, recSize, ds), f, name, recSize, Flatten(ds), again);
  }

  /** Records written by any number of BlockWrites: a BlockRead of `m` records after a
    * Seek to record `k` delivers the bytes written there, counts the whole records,
    * and reports a short read exactly when nobody asked for the count. */
  lemma {:induction false} BlocksComeBack(s: Sys, f: nat, name: string, recSize: int, ds: seq<seq<byte>>, again: bool,
                                          k: nat, m: int, has: bool)
    requires !Pending(s) && s.exit.None? && DiskOk(s) && 0 < |name| <= 511 && (again ==> s.fileMode != 1)
    requires recSize > 0 && WholeRecords(ds, recSize) && m > 0 && InInt64(k * recSize)
    ensures k * recSize >= 0 && m * recSize >= 0
    ensures var w := WriteBlocks(Run(s, [OpAssign(f, name), OpRewriteSized(f, recSize, OK)]), f, false, recSize, ds);
            var r := Step(Step(Reread(w, f, recSize, again), OpSeek(f, k)).s, OpBlockRead(f, m, has));
            && r.data == Part(Flatten(ds), k * recSize, m * recSize)
            && r.n == |r.data| / recSize
            && r.s.inOutRes == if !has && r.n < m then 100 else 0
  {
    var w := WriteBlocks(Run(s, [OpAssign(f, name), OpRewriteSized(f, recSize, OK)]), f, false, recSize, ds);
    hide Run, Stored, Reread, WriteBlocks, Step, Part;
    WrittenBlocks(s, f, name, false, recSize, ds, again);
    var t := Reread(w, f, recSize, again);
    SeekStored(t, f, recSize, Flatten(ds), k);
    BlockReadPart(Step(t, OpSeek(f, k)).s, f, recSize, Flatten(ds), m, has);
  }

  // ---- typed files ----

  predicate Components(ds: seq<seq<byte>>, recSize: int) {
    forall i | 0 <= i < |ds| :: |ds[i]| == recSize
  }

  lemma {:induction false} ComponentAt(ds: seq<seq<byte>>, recSize: int, k: nat)
    requires recSize > 0 && Components(ds, recSize)
    ensures |Flatten(ds)| == |ds| * recSize
    ensures k < |ds| ==> k * recSize >= 0 && Part(Flatten(ds), k * recSize, recSize) == ds[k]
    ensures k < |ds| ==> 0 <= k * recSize && k * recSize + recSize <= |Flatten(ds)|
    decreases |ds|
  {
    if ds != [] {
      var rest := ds[1..];
      assert Components(rest, recSize) by {
        assert forall i | 0 <= i < |rest| :: rest[i] == ds[i + 1];
      }
      var (d, c) := (ds[0], Flatten(rest));
      ComponentAt(rest, recSize, if k > 0 then k - 1 else 0);
      assert |ds| * recSize == (|ds| - 1) * recSize + recSize;
      if k == 0 {
        assert (d + c)[0..recSize] == d;
      } else if k < |ds| {
        var p := (k - 1) * recSize;
        assert k * recSize == p + recSize;
        assert (d + c)[p + recSize..p + recSize + recSize] == c[p..p + recSize];
        assert rest[k - 1] == ds[k];
      }
    }
  }

  /** The components `n` typed reads deliver, and the state after them. */
  function Reads(s: Sys, f: nat, recSize: nat, n: nat): (seq<seq<byte>>, Sys)
    decreases n
  {
    if n == 0 then ([], s)
    else
      var r := Step(s, OpReadBinary(f, recSize));
      var rest := Reads(r.s, f, recSize, n - 1);
      ([r.data] + rest.0, rest.1)
  }

  lemma {:induction false} ReadStored(s: Sys, f: nat, recSize: int, c: seq<byte>)
    requires Stored(s, f, recSize, c) && PosOf(s, f) + recSize <= |c|
    ensures var r := Step(s, OpReadBinary(f, recSize));
            && r.data == Part(c, PosOf(s, f), recSize)
            && Stored(r.s, f, recSize, c) && PosOf(r.s, f) == PosOf(s, f) + recSize
  {
  }

  lemma {:induction false} ReadsStored(s: Sys, f: nat, recSize: int, ds: seq<seq<byte>>, k: nat, n: nat)
    requires recSize > 0 && Components(ds, recSize) && k + n <= |ds|
    requires Stored(s, f, recSize, Flatten(ds)) && PosOf(s, f) == k * recSize
    ensures var (got, t) := Reads(s, f, recSize, n);
            got == ds[k..k + n] && Stored(t, f, recSize, Flatten(ds)) && PosOf(t, f) == (k + n) * recSize
    decreases n
  {
    hide Stored, Step, Part, Components;
    if n > 0 {
      ComponentAt(ds, recSize, k);
      ReadStored(s, f, recSize, Flatten(ds));
      assert (k + 1) * recSize == k * recSize + recSize;
      ReadsStored(Step(s, OpReadBinary(f, recSize)).s, f, recSize, ds, k + 1, n - 1);
      assert [ds[k]] + ds[k + 1..k + n] == ds[k..k + n];
    }
  }

  lemma {:induction false} EofStored(s: Sys, f: nat, recSize: int, ds: seq<seq<byte>>, k: nat)
    requires recSize > 0 && Components(ds, recSize)
    requires Stored(s, f, recSize, Flatten(ds)) && PosOf(s, f) == k * recSize
    ensures Step(s, OpEof(f)).n == if k >= |ds| then 1 else 0
    ensures Step(s, OpFilePos(f)).n == k && Step(s, OpFileSize(f)).n == |ds|
  {
    ComponentAt(ds, recSize, 0);
    Whole(k, recSize);
    Whole(|ds|, recSize);
  }

  /** Components written one by one come back one by one: from component `k` on, `n`
    * reads deliver the next `n` as they were written, and Eof is true after the last. */
  lemma {:induction false} ComponentsComeBack(s: Sys, f: nat, name: string, recSize: int, ds: seq<seq<byte>>, again: bool,
                                              k: nat, n: nat)
    requires !Pending(s) && s.exit.None? && DiskOk(s) && 0 < |name| <= 511 && (again ==> s.fileMode != 1)
    requires recSize > 0 && Components(ds, recSize) && k + n <= |ds| && InInt64(k * recSize)
    ensures var w := WriteBlocks(Run(s, [OpAssign(f, name), OpRewriteSized(f, recSize, OK)]), f, true, recSize, ds);
            var (got, t) := Reads(Step(Reread(w, f, recSize, again), OpSeek(f, k)).s, f, recSize, n);
            && got == ds[k..k + n] && !Pending(t)
            && Step(t, OpEof(f)).n == (if k + n == |ds| then 1 else 0)
            && Step(t, OpFilePos(f)).n == k + n && Step(t, OpFileSize(f)).n == |ds|
  {
    hide Run, Stored, Reread, WriteBlocks, Step, Reads, Components, WholeRecords, DiskOk;
    var w := WriteBlocks(Run(s, [OpAssign(f, name), OpRewriteSized(f, recSize, OK)]), f, true, recSize, ds);
    AreWhole(ds, recSize);
    WrittenBlocks(s, f, name, true, recSize, ds, again);
    var v := Reread(w, f, recSize, again);
    SeekStored(v, f, recSize, Flatten(ds), k);
    ReadsStored(Step(v, OpSeek(f, k)).s, f, recSize, ds, k, n);
    var t := Reads(Step(v, OpSeek(f, k)).s, f, recSize, n).1;
    EofStored(t, f, recSize, ds, k + n);
    StoredClear(t, f, recSize, Flatten(ds));
  }

  lemma AreWhole(ds: seq<seq<byte>>, recSize: int)
    requires recSize > 0 && Components(ds, recSize)
    ensures WholeRecords(ds, recSize)
  {
  }

  lemma StoredClear(s: Sys, f: nat, recSize: int, c: seq<byte>)
    requires Stored(s, f, recSize, c)
    ensures !Pending(s)
  {
  }
}
