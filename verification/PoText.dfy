/** The text a message catalog is made of: quoted strings and their four
  * escapes, the placeholders of a format string, the fields of the header. */
module PoText {
  import Bytes

  /** A byte of the file, written as the character it is in Latin-1. */
  type octet = c: char | c as int < 256 witness 'A'
  type text = seq<octet>

  const DEL := 127 as char

  function Octets(s: text): (r: seq<Bytes.byte>)
    ensures |r| == |s|
  {
    seq(|s|, i requires 0 <= i < |s| => s[i] as int)
  }

  predicate IsBlank(c: char) { c == ' ' || c == '\t' }

  function Strip(s: text): text {
    if s != [] && IsBlank(s[0]) then Strip(s[1..]) else s
  }

  /** The first index of `c`, or the length. */
  function Find(s: text, c: char): (i: nat)
    ensures i <= |s|
    ensures i < |s| ==> s[i] == c
    ensures forall j | 0 <= j < i :: s[j] != c
  {
    if s == [] || s[0] == c then 0 else 1 + Find(s[1..], c)
  }

  // ---- quoted strings ----

  /** What one line contributes: the characters decoded before the reader
    * stopped, and whether it stopped at a proper closing quote. */
  datatype Quoted = Quoted(ok: bool, chars: text)

  function Prepend(c: octet, q: Quoted): Quoted { Quoted(q.ok, [c] + q.chars) }

  predicate IsEscape(c: char) { c in "nt\"\\" }

  function Unescape(c: octet): (r: octet)
    requires IsEscape(c)
  {
    if c == 'n' then '\n' else if c == 't' then '\t' else c
  }

  predicate IsControl(c: char) { c < ' ' || c == DEL }

  /** Decodes what follows an opening quote. */
  function QuotedBody(s: text): Quoted {
    if s == [] then Quoted(false, [])
    else if s[0] == '"' then
      var rest := Strip(s[1..]);
      Quoted(rest == [] || rest[0] == '#', [])
    else if s[0] == '\\' then
      if |s| == 1 || !IsEscape(s[1]) then Quoted(false, [])
      else Prepend(Unescape(s[1]), QuotedBody(s[2..]))
    else if IsControl(s[0]) then Quoted(false, [])
    else Prepend(s[0], QuotedBody(s[1..]))
  }

  function QuotedIn(line: text): Quoted {
    var open := Find(line, '"');
    if open == |line| then Quoted(false, []) else QuotedBody(line[open + 1..])
  }

  /** One step of the decoding, at an index of the line. */
  lemma {:induction false} QuotedStep(line: text, i: nat)
    requires i < |line|
    ensures var (c, q) := (line[i], QuotedBody(line[i..]));
            && (c != '"' && c != '\\' ==>
                  q == if IsControl(c) then Quoted(false, []) else Prepend(c, QuotedBody(line[i + 1..])))
            && (c == '\\' ==>
                  q == if i + 1 == |line| || !IsEscape(line[i + 1]) then Quoted(false, [])
                       else Prepend(Unescape(line[i + 1]), QuotedBody(line[i + 2..])))
            && (c == '"' ==>
                  var rest := Strip(line[i + 1..]);
                  q == Quoted(rest == [] || rest[0] == '#', []))
  {
    var here := line[i..];
    assert here[1..] == line[i + 1..];
    if |here| > 1 {
      assert here[2..] == line[i + 2..];
    }
  }

  lemma Unclosed(line: text)
    ensures QuotedBody(line[|line|..]) == Quoted(false, [])
  {
  }

  lemma Joins(a: text, b: text, c: octet, d: text)
    requires d == [c] + b
    ensures a + d == (a + [c]) + b
  {
  }

  /** Appends the string quoted in `line` to `before`, as far as it decodes. */
  method AppendQuoted(line: text, before: text) returns (ok: bool, out: text)
    ensures ok == QuotedIn(line).ok && out == before + QuotedIn(line).chars
  {
    hide QuotedBody, Strip, IsEscape, IsControl, Unescape, Find;
    out := before;
    var open := Find(line, '"');
    if open == |line| {
      return false, before;
    }
    var i := open + 1;
    ghost var all := QuotedBody(line[i..]);
    while i < |line|
      invariant open < i <= |line|
      invariant before + all.chars == out + QuotedBody(line[i..]).chars
      invariant all.ok == QuotedBody(line[i..]).ok
    {
      hide *;
      QuotedStep(line, i);
      var c := line[i];
      if c == '"' {
        var rest := Strip(line[i + 1..]);
        return rest == [] || rest[0] == '#', out;
      }
      ghost var d := QuotedBody(line[i..]).chars;
      if c == '\\' {
        i := i + 1;
        if i >= |line| || !IsEscape(line[i]) {
          return false, out;
        }
        Joins(out, QuotedBody(line[i + 1..]).chars, Unescape(line[i]), d);
        out := out + [Unescape(line[i])];
      } else {
        if IsControl(c) {
          return false, out;
        }
        Joins(out, QuotedBody(line[i + 1..]).chars, c, d);
        out := out + [c];
      }
      i := i + 1;
    }
    Unclosed(line);
    return false, out;
  }

  /** A text a message may hold: no control character but newline and tab. */
  predicate Clean(s: text) {
    forall i | 0 <= i < |s| :: !IsControl(s[i]) || s[i] == '\n' || s[i] == '\t'
  }

  /** Whatever the line, only clean text comes out of it. */
  lemma {:induction false} QuotedBodyClean(s: text)
    ensures Clean(QuotedBody(s).chars)
  {
    if s != [] && s[0] != '"' {
      if s[0] == '\\' {
        if |s| > 1 && IsEscape(s[1]) {
          QuotedBodyClean(s[2..]);
        }
      } else if !IsControl(s[0]) {
        QuotedBodyClean(s[1..]);
      }
    }
  }

  lemma QuotedInClean(line: text)
    ensures Clean(QuotedIn(line).chars)
  {
    var open := Find(line, '"');
    if open < |line| {
      QuotedBodyClean(line[open + 1..]);
    }
  }

  /** Behind the closing quote only blanks may come, and a comment. */
  lemma {:induction false} ClosingQuote(gap: text, rest: text)
    requires (forall i | 0 <= i < |gap| :: gap[i] as int in {9, 32}) && (rest != [] ==> rest[0] as int !in {9, 32})
    ensures QuotedBody("\"" + gap + rest) == Quoted(rest == [] || rest[0] == '#', [])
  {
    Stripped(gap, rest);
    assert ("\"" + gap + rest)[1..] == gap + rest;
  }

  lemma {:induction false} Stripped(gap: text, rest: text)
    requires (forall i | 0 <= i < |gap| :: gap[i] as int in {9, 32}) && (rest != [] ==> rest[0] as int !in {9, 32})
    ensures Strip(gap + rest) == rest
  {
    if gap == [] {
      assert gap + rest == rest;
    } else {
      assert (gap + rest)[1..] == gap[1..] + rest;
      Stripped(gap[1..], rest);
    }
  }

  /** One character in quotes stands for itself unless it is a control character, and
    * behind a backslash only four are known. */
  lemma {:induction false} CharacterReads(c: octet, rest: text)
    requires c != '"' && c != '\\'
    ensures QuotedBody([c] + rest)
            == if (c as int) < 32 || c as int == 127 then Quoted(false, []) else Prepend(c, QuotedBody(rest))
    ensures forall d: octet :: QuotedBody(['\\', d] + rest) ==
              if d == 'n' then Prepend(10 as char, QuotedBody(rest)) else if d == 't' then Prepend(9 as char, QuotedBody(rest))
              else if d as int == 34 || d as int == 92 then Prepend(d, QuotedBody(rest)) else Quoted(false, [])
  {
    assert ([c] + rest)[1..] == rest;
    assert forall d: octet :: (['\\', d] + rest)[2..] == rest && (['\\', d] + rest)[1] == d;
  }

  // ---- the catalog writer's escapes ----

  function EscapeChar(c: octet): text {
    if c == '\\' then "\\\\"
    else if c == '"' then "\\\""
    else if c == '\n' then "\\n"
    else if c == '\t' then "\\t"
    else [c]
  }

  function Escape(s: text): text {
    if s == [] then [] else EscapeChar(s[0]) + Escape(s[1..])
  }

  /** The reader undoes the writer's escapes on clean text and on nothing else. */
  lemma {:induction false} EscapeReadsBack(s: text)
    ensures QuotedBody(Escape(s) + "\"") == Quoted(true, s) <==> Clean(s)
  {
    if s == [] {
      assert Escape(s) + "\"" == "\"";
      assert Strip("\""[1..]) == [];
    } else {
      var (c, rest) := (s[0], Escape(s[1..]) + "\"");
      assert Escape(s) + "\"" == EscapeChar(c) + rest;
      EscapeCharReads(c, rest);
      EscapeReadsBack(s[1..]);
      assert s == [c] + s[1..];
      assert Clean(s) <==> Clean([c]) && Clean(s[1..]) by {
        assert [c][0] == c;
        assert forall i | 0 <= i < |s[1..]| :: s[1..][i] == s[i + 1];
      }
      if Clean([c]) {
        assert QuotedBody(EscapeChar(c) + rest) == Prepend(c, QuotedBody(rest));
        assert ([c] + QuotedBody(rest).chars)[1..] == QuotedBody(rest).chars;
      }
    }
  }

  lemma EscapeCharReads(c: octet, rest: text)
    ensures QuotedBody(EscapeChar(c) + rest)
            == if Clean([c]) then Prepend(c, QuotedBody(rest)) else Quoted(false, [])
  {
    var s := EscapeChar(c) + rest;
    assert Clean([c]) <==> !IsControl(c) || c == '\n' || c == '\t' by {
      assert [c][0] == c;
    }
    if |EscapeChar(c)| == 2 {
      assert s[2..] == rest;
    } else {
      assert s[1..] == rest;
    }
  }

  // ---- placeholders ----

  predicate IsDigit(c: char) { '0' <= c <= '9' }

  predicate PlaceholderAt(s: text, i: int) {
    0 <= i < |s| - 1 && s[i] == '%' && IsDigit(s[i + 1])
  }

  ghost predicate Uses(s: text, d: char) {
    exists i :: PlaceholderAt(s, i) && s[i + 1] == d
  }

  /** The digits of the placeholders that start before `n`. */
  function DigitsBefore(s: text, n: nat): set<char>
    requires n <= |s|
  {
    if n == 0 then {}
    else if PlaceholderAt(s, n - 1) then DigitsBefore(s, n - 1) + {s[n] as char}
    else DigitsBefore(s, n - 1)
  }

  function DigitsUsed(s: text): set<char> { DigitsBefore(s, |s|) }

  lemma {:induction false} DigitsBeforeAre(s: text, n: nat, d: char)
    requires n <= |s|
    ensures d in DigitsBefore(s, n) <==> exists i :: i < n && PlaceholderAt(s, i) && s[i + 1] == d
  {
    if n > 0 {
      DigitsBeforeAre(s, n - 1, d);
      assert PlaceholderAt(s, n - 1) ==> s[n - 1 + 1] == s[n];
    }
  }

  /** The mask is the set of indices used, wherever and however often. */
  lemma DigitsUsedAre(s: text, d: char)
    ensures d in DigitsUsed(s) <==> Uses(s, d)
  {
    DigitsBeforeAre(s, |s|, d);
  }

  /** The loop steps over the digit it has just read; no digit is a '%', so it
    * misses no placeholder by that. */
  method PlaceholderMask(s: text) returns (mask: set<char>)
    ensures mask == DigitsUsed(s)
  {
    mask := {};
    var i := 0;
    while i + 1 < |s|
      invariant 0 <= i <= |s| && mask == DigitsBefore(s, i)
    {
      if s[i] == '%' && IsDigit(s[i + 1]) {
        mask := mask + {s[i + 1] as char};
        i := i + 1;
        assert PlaceholderAt(s, i - 1) && !PlaceholderAt(s, i);
        assert mask == DigitsBefore(s, i);
      }
      i := i + 1;
    }
    assert i == |s| || (i + 1 == |s| && !PlaceholderAt(s, i));
  }

  // ---- the header ----

  /** The value of the first line that starts with `key` and goes on past it. */
  function HeaderField(h: text, key: text): text
    requires key != []
  {
    var e := Find(h, '\n');
    var l := h[..e];
    if |l| > |key| && key <= l then Strip(l[|key|..])
    else if e == |h| then []
    else HeaderField(h[e + 1..], key)
  }

  /** One step of the search, at an index of the header. */
  lemma {:induction false} FieldStep(h: text, i: nat, key: text)
    requires key != [] && i <= |h|
    ensures var e := i + Find(h[i..], '\n');
            && i <= e <= |h|
            && HeaderField(h[i..], key)
               == if e - i > |key| && key <= h[i..e] then Strip(h[i..e][|key|..])
                  else if e == |h| then [] else HeaderField(h[e + 1..], key)
  {
    hide Strip;
    var (rest, n) := (h[i..], Find(h[i..], '\n'));
    assert rest[..n] == h[i..i + n];
    if n < |rest| {
      assert rest[n + 1..] == h[i + n + 1..];
    }
  }

  method FindField(h: text, key: text) returns (value: text)
    requires key != []
    ensures value == HeaderField(h, key)
  {
    hide HeaderField, Find, Strip;
    var i := 0;
    assert h[0..] == h;
    while i < |h|
      invariant 0 <= i <= |h|
      invariant HeaderField(h, key) == HeaderField(h[i..], key)
    {
      FieldStep(h, i, key);
      var e := i + Find(h[i..], '\n');
      var l := h[i..e];
      if |l| > |key| && key <= l {
        return Strip(l[|key|..]);
      }
      if e == |h| {
        return [];
      }
      i := e + 1;
    }
    NoField(key);
    assert h[i..] == [];
    return [];
  }

  lemma NoField(key: text)
    requires key != []
    ensures HeaderField([], key) == []
  {
  }

  /** What follows the first `pat` in `s`; None when there is none. */
  datatype Tail = NoTail | Tail(s: text)

  function After(s: text, pat: text): Tail
  {
    if |s| < |pat| then NoTail
    else if pat <= s then Tail(s[|pat|..])
    else if s == [] then NoTail
    else After(s[1..], pat)
  }

  function TrimEnd(s: text): text {
    if s != [] && (s[|s| - 1] == ' ' || s[|s| - 1] == '\n') then TrimEnd(s[..|s| - 1]) else s
  }

  function Lower(s: text): (r: text)
    ensures |r| == |s|
  {
    seq(|s|, i requires 0 <= i < |s| => LowerChar(s[i]))
  }

  function LowerChar(c: octet): octet {
    if 'A' <= c <= 'Z' then (c as int + 32) as char else c
  }

  /** The number a text starts with. */
  function Number(s: text, acc: nat): nat {
    if s == [] || !IsDigit(s[0]) then acc
    else Number(s[1..], acc * 10 + (s[0] as int - '0' as int))
  }

  /** A number as it is written in decimal. */
  function Decimal(n: nat): (s: text)
    ensures s != []
  {
    if n < 10 then ['0' + n as char] else Decimal(n / 10) + ['0' + (n % 10) as char]
  }

  lemma {:induction false} DecimalDigits(n: nat)
    ensures forall i | 0 <= i < |Decimal(n)| :: '0' <= Decimal(n)[i] <= '9'
  {
    if n >= 10 {
      DecimalDigits(n / 10);
    }
  }

  lemma {:induction false} NumberJoins(a: text, b: text, acc: nat)
    requires forall i | 0 <= i < |a| :: '0' <= a[i] <= '9'
    ensures Number(a + b, acc) == Number(b, Number(a, acc))
  {
    if a == [] {
      assert a + b == b;
    } else {
      assert (a + b)[1..] == a[1..] + b;
      NumberJoins(a[1..], b, acc * 10 + (a[0] as int - '0' as int));
    }
  }

  /** The decimal digits of a number are read as the number. */
  lemma {:induction false} DecimalReads(n: nat)
    ensures Number(Decimal(n), 0) == n
  {
    var c: octet := '0' + (n % 10) as char;
    assert [c][0] == c && [c][1..] == [];
    assert Number([], 0) == 0 && forall v: nat :: Number([], v) == v;
    if n < 10 {
      assert n % 10 == n;
      assert Number([c], 0) == Number([c][1..], n);
    } else {
      DecimalReads(n / 10);
      DecimalDigits(n / 10);
      NumberJoins(Decimal(n / 10), [c], 0);
      assert Number([c], n / 10) == Number([c][1..], n / 10 * 10 + n % 10);
    }
  }

  lemma {:induction false} NumberGrows(s: text, acc: nat)
    ensures Number(s, acc) >= acc
  {
    if s != [] && IsDigit(s[0]) {
      NumberGrows(s[1..], acc * 10 + (s[0] as int - '0' as int));
    }
  }

  const UINT64_MAX: nat := 0xFFFF_FFFF_FFFF_FFFF

  /** The clamping loop: no number past the range comes back as a small one. */
  method SaturatedNumber(s: text) returns (v: nat)
    ensures v == if Number(s, 0) > UINT64_MAX then UINT64_MAX else Number(s, 0)
  {
    v := 0;
    var i := 0;
    assert s[0..] == s;
    while i < |s|
      invariant 0 <= i <= |s| && v <= UINT64_MAX
      invariant Number(s, 0) == Number(s[i..], v)
    {
      ghost var rest := s[i..];
      if !IsDigit(s[i]) {
        return v;
      }
      var digit: nat := s[i] as int - '0' as int;
      assert rest[1..] == s[i + 1..];
      if v > (UINT64_MAX - digit) / 10 {
        NumberGrows(s[i + 1..], v * 10 + digit);
        return UINT64_MAX;
      }
      v := v * 10 + digit;
      i := i + 1;
    }
    assert s[i..] == [];
  }
}
