/** Integers written to text with field widths, and read back through the
  * redirected input cursor. */
module IntText {
  import opened Numerals
  import V = ValParse

  const INT64_MIN := -0x8000_0000_0000_0000
  const INT64_MAX := 0x7FFF_FFFF_FFFF_FFFF
  const INT32_MAX := 0x7FFF_FFFF

  predicate IsInt64(v: int) { INT64_MIN <= v <= INT64_MAX }

  // ---- writing ----

  function Decimal(v: int): string {
    if v < 0 then "-" + Numeral(-v, 10) else Numeral(v, 10)
  }

  function Blanks(n: nat): (s: string)
    ensures |s| == n && forall i | 0 <= i < n :: s[i] == ' '
  {
    seq(n, _ => ' ')
  }

  /** A width is a minimum: short text is set to the right, long text is whole. */
  function Field(text: string, w: nat): string {
    Blanks(if w > |text| then w - |text| else 0) + text
  }

  datatype Written = Written(text: string) | WidthTooLarge

  /** A negative width is no width; one past int32 stops the program. */
  function WriteI64(v: int, w: int): Written {
    if w > INT32_MAX then WidthTooLarge else Written(Field(Decimal(v), if w < 0 then 0 else w))
  }

  // ---- reading ----

  datatype ReadResult = Value(v: int) | BadFormat | OutOfRange

  /** Reads at `i`: what comes of it, and where the cursor is left. Nothing but
    * blanks reads as zero. */
  function ReadAt(s: string, i: nat): (r: (ReadResult, nat))
    requires i <= |s|
    ensures r.1 <= |s|
  {
    var b := V.SpaceEnd(s, i);
    if b == |s| then (Value(0), b)
    else
      var g := V.SignEnd(s, b);
      var e := V.DigitEnd(s, g, 10);
      if e == g then (BadFormat, e)
      else
        var n: int := Numerals.Value(s[g..e], 10);
        var v := if s[b] == '-' then -n else n;
        (if IsInt64(v) then Value(v) else OutOfRange, e)
  }

  lemma DigitsOn(s: string, i: nat)
    requires i <= |s|
    ensures V.DigitEnd(s, i, 10) == if i < |s| && '0' <= s[i] <= '9' then V.DigitEnd(s, i + 1, 10) else i
  {
  }

  lemma SignOn(s: string, i: nat)
    requires i <= |s|
    ensures V.SignEnd(s, i) == if i < |s| && (s[i] == '+' || s[i] == '-') then i + 1 else i
  {
  }

  lemma OneSlice(s: string, i: nat)
    requires i <= |s|
    ensures s[i..i] == ""
    ensures i < |s| ==> s[i..i + 1] == [s[i]] && "" + [s[i]] == [s[i]]
  {
  }

  /** strtoll on a scanned token, with its two failures. */
  function Strtoll(token: string): ReadResult
    requires AllDigits(Unsigned(token), 10)
  {
    var d := Unsigned(token);
    if d == "" then BadFormat
    else
      var n: int := Numerals.Value(d, 10);
      var v := if token[0] == '-' then -n else n;
      if IsInt64(v) then Value(v) else OutOfRange
  }

  function Unsigned(token: string): string {
    if token != "" && (token[0] == '+' || token[0] == '-') then token[1..] else token
  }

  lemma {:induction false} TokenReads(s: string, i: nat)
    requires i <= |s| && V.SpaceEnd(s, i) < |s|
    ensures var b := V.SpaceEnd(s, i);
            var token := s[b..V.DigitEnd(s, V.SignEnd(s, b), 10)];
            AllDigits(Unsigned(token), 10) && Strtoll(token) == ReadAt(s, i).0
  {
    hide Numerals.Value, V.SpaceEnd, V.DigitEnd, IsDigit, V.IsSpace, IsInt64;
    var b := V.SpaceEnd(s, i);
    var g := V.SignEnd(s, b);
    var e := V.DigitEnd(s, g, 10);
    var token := s[b..e];
    if e > b {
      assert token[0] == s[b];
      if g == b {
        NotSign(s[b]);
      }
    }
    assert Unsigned(token) == s[g..e];
  }

  lemma NotSign(c: char)
    ensures IsDigit(c, 10) ==> c != '+' && c != '-'
  {
  }

  const EOF := -1

  class InStream {
    const buf: string
    var pos: nat

    constructor (text: string)
      ensures buf == text && pos == 0
    {
      buf, pos := text, 0;
    }

    method InCh() returns (c: int)
      requires pos <= |buf|
      modifies this`pos
      ensures if old(pos) == |buf| then c == EOF && pos == old(pos)
              else c == buf[old(pos)] as int && pos == old(pos) + 1
    {
      if pos < |buf| {
        c := buf[pos] as int;
        pos := pos + 1;
      } else {
        c := EOF;
      }
    }

    method Unget(c: int)
      requires pos <= |buf|
      modifies this`pos
      ensures pos == if c == EOF || old(pos) == 0 then old(pos) else old(pos) - 1
    {
      if c != EOF && pos > 0 {
        pos := pos - 1;
      }
    }

    /** The character last read sits just before the cursor, or nothing is left. */
    ghost predicate Holds(c: int, at: nat)
      reads this
    {
      at <= |buf| && if at == |buf| then c == EOF && pos == |buf| else c == buf[at] as int && pos == at + 1
    }

    method SkipBlanks() returns (c: int)
      requires pos <= |buf|
      modifies this`pos
      ensures Holds(c, V.SpaceEnd(buf, old(pos)))
    {
      ghost var at := pos;
      c := InCh();
      while c == ' ' as int || c == '\t' as int || c == '\n' as int || c == '\r' as int
        invariant Holds(c, at) && V.SpaceEnd(buf, at) == V.SpaceEnd(buf, old(pos))
        decreases |buf| - at
      {
        c := InCh();
        at := at + 1;
      }
    }

    /** Appends the digits at the cursor; `c` is the character in hand. */
    method TakeDigits(token: string, c: int, ghost at: nat) returns (longer: string, d: int)
      requires Holds(c, at)
      modifies this`pos
      ensures var e := V.DigitEnd(buf, at, 10);
              Holds(d, e) && longer == token + buf[at..e]
    {
      hide V.DigitEnd, IsDigit;
      longer, d := token, c;
      ghost var i := at;
      while d != EOF && '0' as int <= d <= '9' as int
        invariant at <= i <= |buf| && Holds(d, i) && longer == token + buf[at..i]
        invariant V.DigitEnd(buf, i, 10) == V.DigitEnd(buf, at, 10)
        decreases |buf| - i
      {
        DigitsOn(buf, i);
        longer := longer + [d as char];
        d := InCh();
        i := i + 1;
      }
      DigitsOn(buf, i);
    }

    method ScanNumber() returns (token: string, sawAny: bool)
      requires pos <= |buf|
      modifies this`pos
      ensures var b := V.SpaceEnd(buf, old(pos));
              var e := V.DigitEnd(buf, V.SignEnd(buf, b), 10);
              token == buf[b..e] && sawAny == (b < |buf|) && pos == e
    {
      hide V.SpaceEnd, V.SignEnd, V.DigitEnd, IsDigit, V.IsSpace;
      ghost var b := V.SpaceEnd(buf, pos);
      ghost var g := V.SignEnd(buf, b);
      token := "";
      var c := SkipBlanks();
      sawAny := c != EOF;
      SignOn(buf, b);
      if c == '+' as int || c == '-' as int {
        token := token + [c as char];
        c := InCh();
      }
      OneSlice(buf, b);
      token, c := TakeDigits(token, c, g);
      Unget(c);
    }

    method ReadI64() returns (r: ReadResult)
      requires pos <= |buf|
      modifies this`pos
      ensures (r, pos) == ReadAt(buf, old(pos))
    {
      hide V.SpaceEnd, V.DigitEnd, IsDigit, V.IsSpace, V.SignEnd, Strtoll, Unsigned;
      ghost var start := pos;
      var token, sawAny := ScanNumber();
      if !sawAny {
        NothingLeft(buf, start);
        return Value(0);
      }
      TokenReads(buf, start);
      r := Strtoll(token);
    }
  }

  lemma NothingLeft(s: string, i: nat)
    requires i <= |s| && V.SpaceEnd(s, i) == |s|
    ensures V.DigitEnd(s, V.SignEnd(s, |s|), 10) == |s|
  {
  }

  // ---- reading back what was written ----

  lemma {:induction false} NumeralStarts(n: nat)
    ensures V.IsSpace(Numeral(n, 10)[0]) == false && Numeral(n, 10)[0] !in "+-"
  {
    NumeralValue(n, 10);
    assert IsDigit(Numeral(n, 10)[0], 10);
  }

  /** The parts of a field: blanks, a sign, digits. */
  lemma {:induction false} FieldParts(v: int, w: nat)
    ensures var (f, d) := (Field(Decimal(v), w), Decimal(v));
            var (b, g) := (|f| - |d|, |f| - |d| + if v < 0 then 1 else 0);
            && b >= 0 && g < |f| && f[b..] == d && f[b] == d[0]
            && (forall k | 0 <= k < b :: f[k] == ' ')
            && f[g..] == Numeral(if v < 0 then -v else v, 10)
            && !V.IsSpace(d[0]) && (d[0] == '-' <==> v < 0) && d[0] != '+'
  {
    NumeralStarts(if v < 0 then -v else v);
  }

  /** Where those parts are in a text the field stands in. */
  lemma {:induction false} FieldAt(s: string, i: nat, v: int, w: nat)
    requires var f := Field(Decimal(v), w); i + |f| < |s| && s[i..i + |f|] == f
    ensures var e := i + |Field(Decimal(v), w)|;
            var (b, g) := (e - |Decimal(v)|, e - |Decimal(v)| + if v < 0 then 1 else 0);
            && i <= b <= g < e && s[g..e] == Numeral(if v < 0 then -v else v, 10)
            && (forall k | i <= k < b :: s[k] == ' ')
            && !V.IsSpace(s[b]) && (s[b] == '-' <==> v < 0) && s[b] != '+'
  {
    FieldParts(v, w);
    hide Field, Decimal, Numeral, V.IsSpace;
    var f := Field(Decimal(v), w);
    assert forall k | i <= k < i + |f| :: s[k] == s[i..i + |f|][k - i] == f[k - i];
    var g := |f| - |Decimal(v)| + if v < 0 then 1 else 0;
    assert s[i + g..i + |f|] == f[g..];
  }

  /** A number after blanks and before a character that is no digit is read as
    * itself, and the cursor is left at that character. */
  lemma {:induction false} FieldReadsBack(s: string, i: nat, v: int, w: nat)
    requires IsInt64(v)
    requires var f := Field(Decimal(v), w); i + |f| < |s| && s[i..i + |f|] == f && !IsDigit(s[i + |f|], 10)
    ensures ReadAt(s, i) == (Value(v), i + |Field(Decimal(v), w)|)
  {
    hide Field, Decimal, Numeral, Numerals.Value, IsDigit, V.IsSpace, V.SpaceEnd, V.SignEnd, V.DigitEnd, IsInt64;
    var n: nat := if v < 0 then -v else v;
    var e := i + |Field(Decimal(v), w)|;
    var b := e - |Decimal(v)|;
    FieldAt(s, i, v, w);
    NumeralValue(n, 10);
    Scans(s, i, b, if v < 0 then b + 1 else b, e);
  }

  lemma {:induction false} Scans(s: string, i: nat, b: nat, g: nat, e: nat)
    requires i <= b <= g <= e < |s| && (forall k | i <= k < b :: s[k] == ' ')
    requires !V.IsSpace(s[b]) && AllDigits(s[g..e], 10) && !IsDigit(s[e], 10)
    requires (g == b && s[b] != '-' && s[b] != '+') || (g == b + 1 && s[b] == '-')
    ensures V.SpaceEnd(s, i) == b && V.SignEnd(s, b) == g && V.DigitEnd(s, g, 10) == e
  {
    hide IsDigit, V.IsSpace;
    BlankIsSpace();
    V.SpaceEndIs(s, i, b);
    assert forall k | g <= k < e :: s[k] == s[g..e][k - g];
    V.DigitEndIs(s, g, e, 10);
  }

  lemma BlankIsSpace()
    ensures V.IsSpace(' ')
  {
  }

  datatype Item = Item(v: int, w: int)

  predicate Writable(x: Item) { IsInt64(x.v) && x.w <= INT32_MAX }

  function FieldText(x: Item): string
    requires Writable(x)
  {
    WriteI64(x.v, x.w).text
  }

  /** One number to a line, each in its own field. */
  function Lines(items: seq<Item>): string
    requires forall x <- items :: Writable(x)
  {
    if items == [] then "" else FieldText(items[0]) + "\n" + Lines(items[1..])
  }

  /** Reads `n` numbers, each where the one before left the cursor. */
  function ReadMany(s: string, i: nat, n: nat): seq<(ReadResult, nat)>
    requires i <= |s|
    decreases n
  {
    if n == 0 then []
    else
      var (r, e) := ReadAt(s, i);
      [(r, e)] + ReadMany(s, e, n - 1)
  }

  /** What those reads should give: the numbers, and the ends of their lines. */
  function Expected(items: seq<Item>, i: nat): seq<(ReadResult, nat)>
    requires forall x <- items :: Writable(x)
  {
    if items == [] then []
    else
      var e := i + |FieldText(items[0])|;
      [(Value(items[0].v), e)] + Expected(items[1..], e + 1)
  }

  /** Blanks before the cursor make no difference to a read. */
  lemma {:induction false} SkipsBlank(s: string, i: nat, n: nat)
    requires i < |s| && V.IsSpace(s[i])
    ensures ReadMany(s, i, n) == ReadMany(s, i + 1, n)
  {
    assert V.SpaceEnd(s, i) == V.SpaceEnd(s, i + 1);
  }

  lemma {:induction false} ReadsFrom(before: string, items: seq<Item>)
    requires forall x <- items :: Writable(x)
    ensures ReadMany(before + Lines(items), |before|, |items|) == Expected(items, |before|)
    decreases |items|
  {
    hide *;
    if items == [] {
      NoReads(before + Lines(items), |before|);
      NothingExpected(|before|);
    } else {
      assert forall x <- items[1..] :: x in items;
      var (text, rest) := (FieldText(items[0]), Lines(items[1..]));
      var next := before + (text + "\n");
      FirstLine(before, items);
      LineAt(before, text, rest);
      OneRead(next + rest, |before|, items[0], |items|);
      ReadsFrom(next, items[1..]);
      OneExpected(items, |before|);
    }
  }

  lemma NothingExpected(i: nat)
    ensures Expected([], i) == []
  {
  }

  lemma OneExpected(items: seq<Item>, i: nat)
    requires items != [] && forall x <- items :: Writable(x)
    ensures var e := i + |FieldText(items[0])|;
            Expected(items, i) == [(Value(items[0].v), e)] + Expected(items[1..], e + 1)
  {
    hide FieldText, Writable;
  }

  lemma FirstLine(before: string, items: seq<Item>)
    requires items != [] && forall x <- items :: Writable(x)
    ensures before + Lines(items) == before + (FieldText(items[0]) + "\n") + Lines(items[1..])
  {
    hide FieldText, Writable;
  }

  lemma NoReads(s: string, i: nat)
    requires i <= |s|
    ensures ReadMany(s, i, 0) == []
  {
  }

  lemma ManyUnfolds(s: string, i: nat, n: nat)
    requires i <= |s| && n > 0
    ensures ReadMany(s, i, n) == [ReadAt(s, i)] + ReadMany(s, ReadAt(s, i).1, n - 1)
  {
    hide ReadAt;
  }

  lemma {:induction false} OneRead(s: string, i: nat, x: Item, n: nat)
    requires Writable(x) && n > 0
    requires var f := FieldText(x); i + |f| < |s| && s[i..i + |f|] == f && s[i + |f|] == '\n'
    ensures var e := i + |FieldText(x)|; ReadMany(s, i, n) == [(Value(x.v), e)] + ReadMany(s, e + 1, n - 1)
  {
    hide FieldText, Writable, ReadAt, ReadMany, V.SpaceEnd, V.SignEnd, V.DigitEnd, V.IsSpace, IsDigit;
    var e := i + |FieldText(x)|;
    LineReads(s, i, x);
    NewlineBlank();
    SkipsBlank(s, e, n - 1);
    ManyUnfolds(s, i, n);
  }

  lemma LineAt(before: string, text: string, rest: string)
    ensures var (s, e) := (before + (text + "\n") + rest, |before| + |text|);
            s[|before|..e] == text && s[e] == '\n'
  {
  }

  lemma NewlineBlank()
    ensures V.IsSpace('\n') && !IsDigit('\n', 10)
  {
  }

  lemma {:induction false} LineReads(s: string, i: nat, x: Item)
    requires Writable(x)
    requires var f := FieldText(x); i + |f| < |s| && s[i..i + |f|] == f && s[i + |f|] == '\n'
    ensures ReadAt(s, i) == (Value(x.v), i + |FieldText(x)|)
  {
    NewlineBlank();
    FieldReadsBack(s, i, x.v, if x.w < 0 then 0 else x.w);
  }

  /** Any list of int64 values, in fields of any width the writer takes, comes back
    * as it was, and every read leaves the cursor at the newline that ended it. */
  lemma {:induction false} ListReadsBack(items: seq<Item>)
    requires forall x <- items :: Writable(x)
    ensures var rs := ReadMany(Lines(items), 0, |items|);
            && |rs| == |items|
            && forall k | 0 <= k < |items| ::
                 rs[k].0 == Value(items[k].v) && rs[k].1 < |Lines(items)| && Lines(items)[rs[k].1] == '\n'
  {
    ReadsFrom("", items);
    assert "" + Lines(items) == Lines(items);
    ExpectedAt("", items);
  }

  lemma {:induction false} ExpectedAt(before: string, items: seq<Item>)
    requires forall x <- items :: Writable(x)
    ensures var (es, s) := (Expected(items, |before|), before + Lines(items));
            && |es| == |items|
            && forall k | 0 <= k < |items| ::
                 es[k].0 == Value(items[k].v) && es[k].1 < |s| && s[es[k].1] == '\n'
    decreases |items|
  {
    hide FieldText, Writable;
    if items != [] {
      var text := FieldText(items[0]);
      var next := before + (text + "\n");
      assert before + Lines(items) == next + Lines(items[1..]);
      LineAt(before, text, Lines(items[1..]));
      ExpectedAt(next, items[1..]);
    }
  }
}
