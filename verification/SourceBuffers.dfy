/** One coordinate space for all source buffers: which buffer a position is in,
  * and where. */
module SourceBuffers {
  import opened Bytes
  import opened SourceLines

  const UINT_MAX := 0xFFFF_FFFF

  datatype Buffer = Buffer(name: string, text: text, base: nat, lineStarts: seq<nat>) {
    function End(): nat { base + |text| + 1 }

    /** One past the end of the text is a position of the buffer too. */
    predicate Holds(loc: nat) { base <= loc <= base + |text| }
  }

  /** Buffers lie side by side from 1 on, each with its line index. */
  ghost predicate Laid(buffers: seq<Buffer>, next: nat) {
    && next == (if buffers == [] then 1 else buffers[|buffers| - 1].End())
    && (buffers != [] ==> buffers[0].base == 1)
    && (forall i | 0 < i < |buffers| :: buffers[i].base == buffers[i - 1].End())
    && (forall i | 0 <= i < |buffers| :: buffers[i].lineStarts == LineStarts(buffers[i].text))
  }

  lemma {:induction false} BasesAscend(buffers: seq<Buffer>, next: nat, i: nat, j: nat)
    requires Laid(buffers, next) && i < j <= |buffers|
    ensures buffers[i].End() <= if j == |buffers| then next else buffers[j].base
    decreases j - i
  {
    if i + 1 < j {
      BasesAscend(buffers, next, i + 1, j);
    }
  }

  /** No position belongs to two buffers. */
  lemma {:induction false} Disjoint(buffers: seq<Buffer>, next: nat, i: nat, j: nat, loc: nat)
    requires Laid(buffers, next) && i < |buffers| && j < |buffers|
    requires buffers[i].Holds(loc) && buffers[j].Holds(loc)
    ensures i == j
  {
    if i < j {
      BasesAscend(buffers, next, i, j);
    }
    if j < i {
      BasesAscend(buffers, next, j, i);
    }
  }

  /** And every position handed out so far belongs to one. */
  lemma {:induction false} Covered(buffers: seq<Buffer>, next: nat, loc: nat) returns (i: nat)
    requires Laid(buffers, next) && 1 <= loc < next
    ensures i < |buffers| && buffers[i].Holds(loc)
  {
    i := |buffers| - 1;
    while buffers[i].base > loc
      invariant i < |buffers| && loc < buffers[i].End()
    {
      i := i - 1;
    }
  }

  const BOM: text := [0xEF, 0xBB, 0xBF]

  function WithoutBom(t: text): (r: text)
    ensures r == if |t| >= 3 && t[0] == 0xEF && t[1] == 0xBB && t[2] == 0xBF then t[3..] else t
  {
    if BOM <= t then t[3..] else t
  }

  datatype Location = Nowhere | In(file: nat, offset: nat)

  /** What a position means: the one buffer that holds it, and how far in. */
  ghost predicate Means(buffers: seq<Buffer>, loc: nat, l: Location) {
    match l
    case Nowhere => forall i | 0 <= i < |buffers| :: !buffers[i].Holds(loc)
    case In(file, offset) => 1 <= file <= |buffers| && buffers[file - 1].Holds(loc) && offset == loc - buffers[file - 1].base
  }

  lemma {:induction false} MeaningUnique(buffers: seq<Buffer>, next: nat, loc: nat, l: Location, m: Location)
    requires Laid(buffers, next) && Means(buffers, loc, l) && Means(buffers, loc, m)
    ensures l == m
  {
    if l.In? && m.In? {
      Disjoint(buffers, next, l.file - 1, m.file - 1, loc);
    }
  }

  /** A new buffer changes the meaning of no position handed out before it. */
  lemma {:induction false} OldPositionsKeep(buffers: seq<Buffer>, next: nat, b: Buffer, loc: nat, l: Location)
    requires Laid(buffers, next) && Laid(buffers + [b], b.End()) && loc < next
    ensures Means(buffers, loc, l) <==> Means(buffers + [b], loc, l)
  {
    assert b == (buffers + [b])[|buffers|] && b.base == next by {
      if buffers != [] {
        assert (buffers + [b])[|buffers| - 1] == buffers[|buffers| - 1];
      }
    }
    assert forall i | 0 <= i < |buffers| :: (buffers + [b])[i] == buffers[i];
  }

  datatype FileResult = NoRoom | File(id: nat)
  datatype Presumed = NoPlace | Place(name: string, line: nat)

  class SourceManager {
    var buffers: seq<Buffer>
    var nextBase: nat

    ghost predicate Valid()
      reads this
    {
      Laid(buffers, nextBase) && nextBase <= UINT_MAX
    }

    constructor ()
      ensures Valid() && buffers == []
    {
      buffers, nextBase := [], 1;
    }

    predicate WouldOverflow(size: nat)
      reads this
    {
      nextBase + size + 1 > UINT_MAX
    }

    /** Takes a text in, without its byte order mark, unless positions would run out. */
    method AddBuffer(name: string, text: text) returns (r: FileResult)
      requires Valid()
      modifies this
      ensures Valid()
      ensures r == NoRoom <==> old(nextBase) + |WithoutBom(text)| + 1 > 0xFFFF_FFFF
      ensures r == NoRoom ==> buffers == old(buffers) && nextBase == old(nextBase)
      ensures r != NoRoom ==>
                var b := Buffer(name, WithoutBom(text), old(nextBase), LineStarts(WithoutBom(text)));
                && r == File(|old(buffers)| + 1) && buffers == old(buffers) + [b]
                && nextBase == old(nextBase) + |b.text| + 1
    {
      var t := WithoutBom(text);
      if WouldOverflow(|t|) {
        return NoRoom;
      }
      var starts := IndexLines(t);
      var b := Buffer(name, t, nextBase, starts);
      ghost var before := buffers;
      buffers, nextBase := buffers + [b], nextBase + |t| + 1;
      assert forall i | 0 <= i < |before| :: buffers[i] == before[i];
      return File(|buffers|);
    }

    /** Finds the buffer of a position by binary search over the bases. */
    method Resolve(loc: nat) returns (l: Location)
      requires Valid()
      ensures Means(buffers, loc, l)
    {
      if loc == 0 {
        assert forall i | 0 <= i < |buffers| :: buffers[i].base >= 1 by {
          BasesPositive(buffers, nextBase);
        }
        return Nowhere;
      }
      var lo, hi := 0, |buffers|;
      while lo < hi
        invariant 0 <= lo <= hi <= |buffers|
        invariant forall i | 0 <= i < lo :: buffers[i].base <= loc
        invariant forall i | hi <= i < |buffers| :: loc < buffers[i].base
      {
        var mid := (lo + hi) / 2;
        Split(buffers, nextBase, mid);
        if loc < buffers[mid].base {
          hi := mid;
        } else {
          lo := mid + 1;
        }
      }
      if lo == 0 {
        return Nowhere;
      }
      var b := buffers[lo - 1];
      Split(buffers, nextBase, lo - 1);
      if loc > b.base + |b.text| {
        return Nowhere;
      }
      return In(lo, loc - b.base);
    }

    /** The position of an offset; past the end counts as the end. */
    function LocForOffset(file: nat, offset: nat): (loc: nat)
      reads this
    {
      if !(1 <= file <= |buffers|) then 0
      else
        var b := buffers[file - 1];
        b.base + if offset > |b.text| then |b.text| else offset
    }

    /** A file and an offset in it come back from their position. */
    lemma PositionRoundTrips(file: nat, offset: nat, l: Location)
      requires Valid() && 1 <= file <= |buffers| && offset <= |buffers[file - 1].text|
      requires Means(buffers, LocForOffset(file, offset), l)
      ensures l == In(file, offset) && 1 <= LocForOffset(file, offset) < nextBase
    {
      var loc := LocForOffset(file, offset);
      MeaningUnique(buffers, nextBase, loc, l, In(file, offset));
      BasesAscend(buffers, nextBase, file - 1, |buffers|);
      BasesPositive(buffers, nextBase);
    }

    /** And a position comes back from its file and offset. */
    lemma LocationRoundTrips(loc: nat)
      requires Valid() && 1 <= loc < nextBase
      ensures exists file: nat, offset: nat ::
                && 1 <= file <= |buffers| && offset <= |buffers[file - 1].text|
                && LocForOffset(file, offset) == loc
    {
      var i := Covered(buffers, nextBase, loc);
      assert LocForOffset(i + 1, loc - buffers[i].base) == loc;
    }

    method GetFileId(loc: nat) returns (file: nat)
      requires Valid()
      ensures if file == 0 then Means(buffers, loc, Nowhere)
              else 1 <= file <= |buffers| && buffers[file - 1].Holds(loc)
    {
      var l := Resolve(loc);
      return match l case Nowhere => 0 case In(f, _) => f;
    }

    /** The name and the line of a position: one more than the terminators before it. */
    method GetPresumedLine(loc: nat) returns (p: Presumed)
      requires Valid()
      ensures p == NoPlace <==> Means(buffers, loc, Nowhere)
      ensures forall i | 0 <= i < |buffers| && buffers[i].Holds(loc) ::
                p == Place(buffers[i].name, 1 + |Ends(buffers[i].text, loc - buffers[i].base)|)
    {
      var l := Resolve(loc);
      match l {
        case Nowhere =>
          return NoPlace;
        case In(file, off) =>
          var b := buffers[file - 1];
          var line := LineOf(b.text, b.lineStarts, off);
          forall i | 0 <= i < |buffers| && buffers[i].Holds(loc)
            ensures i == file - 1
          {
            Disjoint(buffers, nextBase, i, file - 1, loc);
          }
          return Place(b.name, line);
      }
    }

    /** The text of the line a position is in. */
    method GetLineText(loc: nat) returns (s: text)
      requires Valid()
      ensures Means(buffers, loc, Nowhere) ==> s == []
      ensures forall i | 0 <= i < |buffers| && buffers[i].Holds(loc) ::
                var (t, k) := (buffers[i].text, |Ends(buffers[i].text, loc - buffers[i].base)|);
                k < |LineStarts(t)| && s == LineText(t, k)
    {
      var l := Resolve(loc);
      match l {
        case Nowhere =>
          return [];
        case In(file, off) =>
          var b := buffers[file - 1];
          hide LineStarts, Ends, LineText;
          var line := LineOf(b.text, b.lineStarts, off);
          s := CutLine(b.text, b.lineStarts, line - 1);
          forall i | 0 <= i < |buffers| && buffers[i].Holds(loc)
            ensures i == file - 1
          {
            Disjoint(buffers, nextBase, i, file - 1, loc);
          }
      }
    }
  }

  lemma {:induction false} Split(buffers: seq<Buffer>, next: nat, m: nat)
    requires Laid(buffers, next) && m < |buffers|
    ensures forall i | 0 <= i < m :: buffers[i].End() <= buffers[m].base
    ensures forall i | m < i < |buffers| :: buffers[m].End() <= buffers[i].base
  {
    forall i | 0 <= i < m
      ensures buffers[i].End() <= buffers[m].base
    {
      BasesAscend(buffers, next, i, m);
    }
    forall i | m < i < |buffers|
      ensures buffers[m].End() <= buffers[i].base
    {
      BasesAscend(buffers, next, m, i);
    }
  }

  lemma BasesPositive(buffers: seq<Buffer>, next: nat)
    requires Laid(buffers, next)
    ensures forall i | 0 <= i < |buffers| :: buffers[i].base >= 1
  {
    if buffers != [] {
      Split(buffers, next, 0);
    }
  }
}
