/** Programs under `{$I+}`: a check after every operation, and where they end. */
module TurboCheck {
  import opened Bytes
  import opened TextWindow
  import opened TurboFiles
  import opened TurboLatch

  /** The operations with the check the compiler puts after each. */
  function Checked(ops: seq<Op>): seq<Op> {
    if ops == [] then [] else [ops[0], OpIoCheck] + Checked(ops[1..])
  }

  /** Operation `k` is the first to fail, and raises `code`. */
  ghost predicate FirstFails(s: Sys, ops: seq<Op>, k: nat, code: int) {
    && k < |ops| && code == Run(s, ops[..k + 1]).inOutRes != 0
    && forall j: nat | j <= k :: !Pending(Run(s, ops[..j]))
  }

  ghost predicate NoneFails(s: Sys, ops: seq<Op>) {
    forall j: nat | j <= |ops| :: !Pending(Run(s, ops[..j]))
  }

  lemma {:induction false} RunStep(s: Sys, ops: seq<Op>, j: nat)
    requires ops != [] && 0 < j <= |ops|
    ensures Run(s, ops[..j]) == Run(Step(s, ops[0]).s, ops[1..][..j - 1])
  {
    assert ops[..j][0] == ops[0] && ops[..j][1..] == ops[1..][..j - 1];
  }

  lemma {:induction false} CheckedStep(s: Sys, ops: seq<Op>)
    requires ops != []
    ensures Run(s, Checked(ops)) == Run(Step(Step(s, ops[0]).s, OpIoCheck).s, Checked(ops[1..]))
  {
    var all := Checked(ops);
    assert all[0] == ops[0] && all[1..][0] == OpIoCheck && all[1..][1..] == Checked(ops[1..]);
    hide Step;
    assert Run(s, all) == Run(Step(s, ops[0]).s, all[1..]);
  }

  /** A check with nothing pending leaves everything as it is; a pending error clears
    * and ends the program with its number. */
  lemma {:induction false} CheckStops(s: Sys)
    requires s.exit.None?
    ensures var t := Step(s, OpIoCheck).s;
            if s.inOutRes == 0 then t == s else t == s.(inOutRes := 0, exit := Some(s.inOutRes))
  {
  }

  /** No statement is carried out after the program has ended. */
  lemma {:induction false} EndedStays(s: Sys, ops: seq<Op>)
    requires s.exit.Some?
    ensures Run(s, ops) == s
  {
    ExitedRun(s, ops);
  }

  /** The checked program runs as the unchecked one as long as nothing fails; where the
    * first operation fails it ends with that operation's number, and everything else
    * stays as the operation left it. */
  lemma {:induction false} CheckedRun(s: Sys, ops: seq<Op>)
    requires s.exit.None? && !Pending(s) && NoneCollects(ops)
    ensures NoneFails(s, ops) ==> Run(s, Checked(ops)) == Run(s, ops)
    ensures forall k: nat, code | FirstFails(s, ops, k, code) ::
              Run(s, Checked(ops)) == Run(s, ops[..k + 1]).(inOutRes := 0, exit := Some(code))
    ensures NoneFails(s, ops) || exists k: nat, code :: FirstFails(s, ops, k, code)
    decreases |ops|
  {
    hide Step;
    assert ops[..0] == [];
    if ops == [] {
      assert forall j: nat | j <= |ops| :: ops[..j] == [];
    } else {
      var (t, rest) := (Step(s, ops[0]).s, ops[1..]);
      CheckedStep(s, ops);
      forall j: nat | 0 < j <= |ops|
        ensures Run(s, ops[..j]) == Run(t, rest[..j - 1])
      {
        RunStep(s, ops, j);
      }
      assert ops[..|ops|] == ops && rest[..|rest|] == rest && rest[..0] == [];
      Ends(s, ops[0]);
      if Pending(t) {
        CheckStops(t);
        EndedStays(Step(t, OpIoCheck).s, Checked(rest));
        assert FirstFails(s, ops, 0, t.inOutRes);
        assert forall k: nat, code | FirstFails(s, ops, k, code) :: k == 0;
      } else if t.exit.Some? {
        forall some ensures Run(t, some) == t {
          EndedStays(t, some);
        }
        EndedUnchecked(t);
      } else {
        CheckStops(t);
        CheckedRun(t, rest);
        assert NoneFails(t, rest) ==> NoneFails(s, ops);
        forall k: nat, code | FirstFails(s, ops, k, code)
          ensures k > 0 && FirstFails(t, rest, k - 1, code)
        {
          assert Run(s, ops[..1]) == t;
          assert forall j: nat | j <= k - 1 :: Run(t, rest[..j]) == Run(s, ops[..j + 1]);
        }
        assert forall k: nat, code | FirstFails(t, rest, k, code) :: FirstFails(s, ops, k + 1, code);
      }
    }
  }

  lemma EndedUnchecked(t: Sys)
    requires t.exit.Some?
    ensures Step(t, OpIoCheck).s == t
  {
  }

  predicate IsBlock(op: Op) { op.OpBlockRead? || op.OpBlockWrite? }

  /** Besides a check, only a block transfer of one or more records of a negative size
    * ends the program, with 217, and then no error is pending. */
  lemma {:induction false} Ends(s: Sys, op: Op)
    requires s.exit.None? && !Pending(s) && !Collects(op)
    ensures var t := Step(s, op).s;
            && (t.exit.Some? <==> IsBlock(op) && IsOpen(s, op.f) && op.count > 0 && Rec(s, op.f).recSize < 0)
            && (t.exit.Some? ==> t.exit == Some(217) && !Pending(t))
  {
    hide Step;
    if IsBlock(op) {
      BlocksEnd(s, op);
    } else if ReadsText(op) {
      TextGoesOn(s, op);
    } else {
      GoesOn(s, op);
    }
  }

  /** How a block transfer leaves a program that was going on. */
  predicate MayEnd(t: Sys, ends: bool) {
    (t.exit.Some? <==> ends) && (t.exit.Some? ==> t.exit == Some(217) && !Pending(t))
  }

  lemma {:induction false} BlockReadEnds(s: Sys, f: nat, count: int, has: bool)
    requires s.exit.None? && !Pending(s)
    ensures MayEnd(BlockRead(s, f, count, has).s, IsOpen(s, f) && count > 0 && Rec(s, f).recSize < 0)
  {
  }

  lemma {:induction false} BlockWriteEnds(s: Sys, f: nat, d: seq<byte>, count: int, has: bool, os: Os)
    requires s.exit.None? && !Pending(s)
    ensures MayEnd(BlockWrite(s, f, d, count, has, os).s, IsOpen(s, f) && count > 0 && Rec(s, f).recSize < 0)
  {
    hide Splice, PosixToRunError, Zeros;
  }

  lemma {:induction false} BlocksEnd(s: Sys, op: Op)
    requires s.exit.None? && !Pending(s) && IsBlock(op)
    ensures MayEnd(Step(s, op).s, IsOpen(s, op.f) && op.count > 0 && Rec(s, op.f).recSize < 0)
  {
    hide BlockRead, BlockWrite, MayEnd, IsOpen, Rec;
    match op
    case OpBlockRead(f, n, has) => BlockReadEnds(s, f, n, has);
    case OpBlockWrite(f, d, n, has, os) => BlockWriteEnds(s, f, d, n, has, os);
  }

  lemma GateKeeps(s: Sys, f: nat)
    ensures FileReady(s, f).s.exit == s.exit
  {
  }

  lemma CodeKeeps(s: Sys, code: int)
    ensures SetIfClear(s, code).exit == s.exit
  {
  }

  lemma MovesKeep(s: Sys, f: nat, c: Cursor, code: int, wantWrite: bool)
    requires IsOpen(s, f)
    ensures PutCursor(s, f, c).exit == SetIfClear(s, code).exit == TrapOnStreamError(s, f, wantWrite).exit == s.exit
    ensures IsOpen(PutCursor(s, f, c), f) && IsOpen(SetIfClear(s, code), f) && IsOpen(TrapOnStreamError(s, f, wantWrite), f)
  {
    hide PosixToRunError;
  }

  predicate Goes(s: Sys, t: Sys) { t.exit == s.exit }

  lemma {:induction false} ReadersGoOn(s: Sys, f: nat, crossLines: bool, parse: seq<int> -> Option<int>)
    ensures Goes(s, Eoln(s, f).s) && Goes(s, SeekEofOrEoln(s, f, crossLines).s) && Goes(s, Readln(s, f))
    ensures Goes(s, ReadChar(s, f).s) && Goes(s, ReadNumber(s, f, parse).s)
  {
    hide EnsurePrimed, SkipWhitespace, TakeToken, ReadlnTurbo, Prime, Advance, Next, CursorOf,
         PutCursor, FileReady, SetIfClear, TrapOnStreamError, IsOpen;
    GateKeeps(s, f);
    var g := FileReady(s, f).s;
    if FileReady(s, f).ready {
      forall c
        ensures var t := PutCursor(g, f, c);
                t.exit == s.exit && IsOpen(t, f) && TrapOnStreamError(t, f, false).exit == s.exit
      {
        MovesKeep(g, f, c, 0, false);
        MovesKeep(PutCursor(g, f, c), f, c, 0, false);
      }
      forall c
        ensures SetIfClear(TrapOnStreamError(PutCursor(g, f, c), f, false), 106).exit == s.exit
      {
        CodeKeeps(TrapOnStreamError(PutCursor(g, f, c), f, false), 106);
      }
    }
  }

  lemma EofGoesOn(s: Sys, f: nat)
    ensures Goes(s, Eof(s, f).s)
  {
    hide EnsurePrimed, CursorOf;
  }

  lemma {:induction false} TextGoesOn(s: Sys, op: Op)
    requires s.exit.None? && ReadsText(op)
    ensures Goes(s, Step(s, op).s)
  {
    hide Goes, Eof, Eoln, SeekEofOrEoln, Readln, ReadChar, ReadNumber;
    match op
    case OpEof(f) => EofGoesOn(s, f);
    case OpReadNumber(f, parse) => ReadersGoOn(s, f, true, parse);
    case OpSeekEoln(f) => ReadersGoOn(s, f, false, _ => None);
    case OpSeekEof(f) => ReadersGoOn(s, f, true, _ => None);
    case OpEoln(f) => ReadersGoOn(s, f, true, _ => None);
    case OpReadln(f) => ReadersGoOn(s, f, true, _ => None);
    case OpReadChar(f) => ReadersGoOn(s, f, true, _ => None);
  }

  lemma OpensGoOn(s: Sys, f: nat, os: Os)
    ensures Goes(s, Reset(s, f, os)) && Goes(s, Rewrite(s, f, os)) && Goes(s, Append(s, f, os))
  {
    hide PosixToRunError;
  }

  lemma StdioKeeps(s: Sys, f: nat, n: nat, d: seq<byte>, os: Os)
    requires IsOpen(s, f)
    ensures Fread(s, f, n).s.exit == Fwrite(s, f, d, os).s.exit == s.exit
    ensures IsOpen(Fread(s, f, n).s, f) && IsOpen(Fwrite(s, f, d, os).s, f)
  {
    hide Splice;
  }

  lemma {:induction false} WritesGoOn(s: Sys, f: nat, d: seq<byte>, os: Os)
    ensures Goes(s, WriteText(s, f, d, os)) && Goes(s, WriteBinary(s, f, d, os))
  {
    hide Fwrite, FileReady, SetIfClear, TrapOnStreamError, IsOpen;
    GateKeeps(s, f);
    var g := FileReady(s, f);
    if g.ready {
      StdioKeeps(g.s, f, 0, d, os);
      MovesKeep(Fwrite(g.s, f, d, os).s, f, Cursor([], 0, false, 0, false), 0, true);
    }
  }

  lemma {:induction false} ReadBinaryGoesOn(s: Sys, f: nat, n: nat)
    ensures Goes(s, ReadBinary(s, f, n).s)
  {
    hide Fread, FileReady, SetIfClear, TrapOnStreamError, IsOpen, PutCursor, CursorOf, Prime, Filled;
    GateKeeps(s, f);
    var g := FileReady(s, f);
    if g.ready {
      StdioKeeps(g.s, f, n, [], Os(0, false, 0));
      var c := Cursor([], 0, false, 0, false);
      var t := TrapOnStreamError(Fread(g.s, f, n).s, f, false);
      MovesKeep(Fread(g.s, f, n).s, f, c, 100, false);
      MovesKeep(t, f, c, 100, false);
      MovesKeep(t, f, Prime(CursorOf(t, f)), 100, false);
      var u := SetIfClear(t, 100);
      MovesKeep(u, f, Prime(CursorOf(u, f)), 100, false);
    }
  }

  lemma SizedGoOn(s: Sys, f: nat, n: int, os: Os)
    ensures Goes(s, ResetSized(s, f, n, os)) && Goes(s, RewriteSized(s, f, n, os))
  {
    hide Reset, Rewrite;
    OpensGoOn(WithRecSize(s, f, n), f, os);
  }

  lemma RestGoesOn(s: Sys, f: nat, name: string, n: int, os: Os)
    ensures Goes(s, Assign(s, f, name)) && Goes(s, Close(s, f)) && Goes(s, Seek(s, f, n)) && Goes(s, Truncate(s, f, os))
    ensures Goes(s, Erase(s, f, os)) && Goes(s, Rename(s, f, name, os)) && Goes(s, Flush(s, f, os))
    ensures Goes(s, FilePos(s, f).s) && Goes(s, FileSize(s, f).s)
  {
    hide PosixToRunError, Zeros;
  }

  lemma {:induction false} GoesOn(s: Sys, op: Op)
    requires s.exit.None? && !Collects(op) && !IsBlock(op) && !ReadsText(op)
    ensures Goes(s, Step(s, op).s)
  {
    hide Goes, Reset, Rewrite, Append, ResetSized, RewriteSized, ReadBinary, WriteText, WriteBinary, Assign, Close, Seek, Truncate,
         Erase, Rename, Flush, FilePos, FileSize;
    var os := Os(0, false, 0);
    match op
    case OpAssign(f, name) => RestGoesOn(s, f, name, 0, os);
    case OpReset(f, o) => OpensGoOn(s, f, o);
    case OpRewrite(f, o) => OpensGoOn(s, f, o);
    case OpAppend(f, o) => OpensGoOn(s, f, o);
    case OpResetSized(f, n, o) => SizedGoOn(s, f, n, o);
    case OpRewriteSized(f, n, o) => SizedGoOn(s, f, n, o);
    case OpReadBinary(f, n) => ReadBinaryGoesOn(s, f, n);
    case OpWriteText(f, d, o) => WritesGoOn(s, f, d, o);
    case OpWriteBinary(f, d, o) => WritesGoOn(s, f, d, o);
    case OpSeek(f, n) => RestGoesOn(s, f, "", n, os);
    case OpRename(f, name, o) => RestGoesOn(s, f, name, 0, o);
    case OpTruncate(f, o) => RestGoesOn(s, f, "", 0, o);
    case OpErase(f, o) => RestGoesOn(s, f, "", 0, o);
    case OpFlush(f, o) => RestGoesOn(s, f, "", 0, o);
    case OpClose(f) => RestGoesOn(s, f, "", 0, os);
    case OpFilePos(f) => RestGoesOn(s, f, "", 0, os);
    case OpFileSize(f) => RestGoesOn(s, f, "", 0, os);
  }
}
