/** Turbo's Val on an integer: the scanning loops against the literals they accept. */
module ValParse {
  import opened Numerals

  const INT64_MAX := 0x7FFF_FFFF_FFFF_FFFF

  predicate IsSpace(c: char) { c == ' ' || c == '\t' || c == '\r' || c == '\n' }

  predicate AllSpaces(s: string) {
    forall i | 0 <= i < |s| :: IsSpace(s[i])
  }

  // ---- the literals ----

  const PREFIXES := ["", "$", "x", "X", "0x", "0X", "&", "%"]

  function RadixOf(prefix: string): nat {
    if prefix == "" then 10 else if prefix == "&" then 8 else if prefix == "%" then 2 else 16
  }

  datatype Literal = Literal(blanks: string, sign: string, prefix: string, digits: string) {
    function Text(): string { blanks + sign + prefix + digits }
    function Radix(): nat { RadixOf(prefix) }

    /** Blanks, a sign, a radix prefix and digits of that radix; all but the
      * digits may be missing. */
    predicate WellFormed() {
      && AllSpaces(blanks) && sign in ["", "+", "-"] && prefix in PREFIXES
      && digits != [] && AllDigits(digits, Radix())
    }

    function Magnitude(): nat
      requires WellFormed()
    {
      Value(digits, Radix())
    }

    function Meaning(): int
      requires WellFormed()
    {
      var m: int := Magnitude();
      if sign == "-" then -m else m
    }

    predicate Accepted(isUnsigned: bool) {
      WellFormed() && Magnitude() <= INT64_MAX && !(isUnsigned && sign == "-")
    }
  }

  // ---- what the scan finds ----

  function SpaceEnd(s: string, i: nat): (j: nat)
    requires i <= |s|
    ensures i <= j <= |s| && (forall k | i <= k < j :: IsSpace(s[k])) && (j < |s| ==> !IsSpace(s[j]))
    decreases |s| - i
  {
    if i < |s| && IsSpace(s[i]) then SpaceEnd(s, i + 1) else i
  }

  function SignEnd(s: string, i: nat): (j: nat)
    requires i <= |s|
    ensures i <= j <= |s|
  {
    if i < |s| && (s[i] == '+' || s[i] == '-') then i + 1 else i
  }

  function PrefixEnd(s: string, i: nat): (j: nat)
    requires i <= |s|
    ensures i <= j <= |s|
  {
    if i < |s| && s[i] in "$xX&%" then i + 1
    else if i + 1 < |s| && s[i] == '0' && s[i + 1] in "xX" then i + 2
    else i
  }

  function DigitEnd(s: string, i: nat, radix: nat): (j: nat)
    requires i <= |s|
    ensures i <= j <= |s| && (forall k | i <= k < j :: IsDigit(s[k], radix)) && (j < |s| ==> !IsDigit(s[j], radix))
    decreases |s| - i
  {
    if i < |s| && IsDigit(s[i], radix) then DigitEnd(s, i + 1, radix) else i
  }

  /** Where the sign, the prefix and the digits start, and where the digits end. */
  datatype Marks = Marks(sign: nat, prefix: nat, digits: nat, end: nat, radix: nat)

  function Scan(s: string): (m: Marks)
    ensures m.sign <= m.prefix <= m.digits <= m.end <= |s|
  {
    var b := SpaceEnd(s, 0);
    var g := SignEnd(s, b);
    var p := PrefixEnd(s, g);
    var radix := RadixOf(s[g..p]);
    Marks(b, g, p, DigitEnd(s, p, radix), radix)
  }

  /** The literal a text starts with; its digits may be missing. */
  function Scanned(s: string): Literal {
    var m := Scan(s);
    Literal(s[..m.sign], s[m.sign..m.prefix], s[m.prefix..m.digits], s[m.digits..m.end])
  }

  predicate Shaped(l: Literal) {
    AllSpaces(l.blanks) && l.sign in ["", "+", "-"] && l.prefix in PREFIXES && AllDigits(l.digits, l.Radix())
  }

  lemma {:induction false} PrefixShape(s: string, i: nat)
    requires i <= |s|
    ensures s[i..PrefixEnd(s, i)] in PREFIXES
  {
    var j := PrefixEnd(s, i);
    var p := s[i..j];
    if j == i + 1 {
      assert p == [s[i]];
    } else if j == i + 2 {
      assert p == [s[i], s[i + 1]];
    } else {
      assert p == "";
    }
  }

  lemma Pieces(s: string, a: nat, b: nat, c: nat, d: nat)
    requires a <= b <= c <= d <= |s|
    ensures s[..a] + s[a..b] + s[b..c] + s[c..d] == s[..d]
  {
  }

  lemma SignShape(s: string, i: nat)
    requires i <= |s|
    ensures s[i..SignEnd(s, i)] in ["", "+", "-"]
    ensures SignEnd(s, i) > i ==> s[i..SignEnd(s, i)] == [s[i]]
  {
    var j := SignEnd(s, i);
    assert s[i..j] == if j > i then [s[i]] else "";
  }

  lemma {:induction false} ScannedShape(s: string)
    ensures Shaped(Scanned(s)) && Scanned(s).Text() == s[..Scan(s).end]
    ensures Scanned(s).Radix() == Scan(s).radix
  {
    hide RadixOf, PrefixEnd, SignEnd, IsDigit, IsSpace;
    var m := Scan(s);
    PrefixShape(s, m.prefix);
    SignShape(s, m.sign);
    Pieces(s, m.sign, m.prefix, m.digits, m.end);
  }

  /** The first digit whose prefix is too big, or the number of digits. */
  function Overflow(digits: string, radix: nat): (k: nat)
    requires AllDigits(digits, radix) && radix >= 1
    ensures k <= |digits|
    ensures k < |digits| <==> Value(digits, radix) > INT64_MAX
    ensures k < |digits| ==> Value(digits[..k + 1], radix) > INT64_MAX
    ensures Value(digits[..k], radix) <= INT64_MAX
  {
    if digits == [] then 0
    else
      var t := digits[..|digits| - 1];
      var k := Overflow(t, radix);
      ValueGrows(digits, |t|, radix);
      assert t[..k] == digits[..k];
      if k < |t| then
        assert t[..k + 1] == digits[..k + 1];
        k
      else
        assert t[..k] == t && digits[..|digits|] == digits;
        if Value(digits, radix) > INT64_MAX then k else k + 1
  }

  /** The code Val reports: 0, or the position of the trouble counted from 1. */
  function Code(s: string, isUnsigned: bool): nat {
    var m := Scan(s);
    ScannedShape(s);
    var k := Overflow(s[m.digits..m.end], m.radix);
    if isUnsigned && m.prefix > m.sign && s[m.sign] == '-' then m.sign + 2
    else if k < m.end - m.digits then m.digits + k + 1
    else if m.end == m.digits || m.end < |s| then m.end + 1
    else 0
  }

  // ---- a literal is scanned as itself ----

  lemma SpaceEndIs(s: string, i: nat, j: nat)
    requires i <= j <= |s| && (forall k | i <= k < j :: IsSpace(s[k])) && (j < |s| ==> !IsSpace(s[j]))
    ensures SpaceEnd(s, i) == j
  {
  }

  lemma DigitEndIs(s: string, i: nat, j: nat, radix: nat)
    requires i <= j <= |s| && (forall k | i <= k < j :: IsDigit(s[k], radix)) && (j < |s| ==> !IsDigit(s[j], radix))
    ensures DigitEnd(s, i, radix) == j
  {
  }

  lemma {:induction false} Chars(l: Literal)
    ensures var (s, b, g) := (l.Text(), |l.blanks|, |l.blanks| + |l.sign|);
            && (forall k | 0 <= k < b :: s[k] == l.blanks[k])
            && (forall k | 0 <= k < |l.sign| :: s[b + k] == l.sign[k])
            && (forall k | 0 <= k < |l.prefix| :: s[g + k] == l.prefix[k])
            && (forall k | 0 <= k < |l.digits| :: s[g + |l.prefix| + k] == l.digits[k])
            && (forall k | g + |l.prefix| <= k < |s| :: s[k] == l.digits[k - g - |l.prefix|])
  {
  }

  lemma DigitsFirst(c: char, radix: nat)
    requires IsDigit(c, radix)
    ensures !IsSpace(c) && c != '+' && c != '-' && (radix == 10 ==> c !in "$xX&%")
  {
  }

  /** What comes after the blanks, and after the sign, cannot be taken for more of them. */
  lemma {:induction false} HeadIs(l: Literal)
    requires l.WellFormed()
    ensures SpaceEnd(l.Text(), 0) == |l.blanks| && SignEnd(l.Text(), |l.blanks|) == |l.blanks| + |l.sign|
  {
    hide IsDigit, RadixOf;
    var (s, b, g) := (l.Text(), |l.blanks|, |l.blanks| + |l.sign|);
    Chars(l);
    DigitsFirst(l.digits[0], l.Radix());
    SignFirst(l);
    SpaceEndIs(s, 0, b);
  }

  /** The characters the sign and what follows it start with. */
  lemma {:induction false} SignFirst(l: Literal)
    requires l.WellFormed()
    ensures var (s, b, g) := (l.Text(), |l.blanks|, |l.blanks| + |l.sign|);
            && s[g] == (if l.prefix != "" then l.prefix[0] else l.digits[0])
            && s[b] == (if l.sign != "" then l.sign[0] else s[g])
  {
    hide IsDigit, RadixOf, AllDigits, AllSpaces;
    var (s, g) := (l.Text(), |l.blanks| + |l.sign|);
    assert s == (l.blanks + l.sign) + (l.prefix + l.digits);
    assert s[g] == (l.prefix + l.digits)[0];
    assert s == l.blanks + (l.sign + (l.prefix + l.digits));
    assert s[|l.blanks|] == (l.sign + (l.prefix + l.digits))[0];
  }

  lemma {:induction false} TailIs(l: Literal)
    requires l.WellFormed()
    ensures var p := |l.blanks| + |l.sign| + |l.prefix|;
            l.Text()[|l.blanks| + |l.sign|..p] == l.prefix && DigitEnd(l.Text(), p, l.Radix()) == |l.Text()|
  {
    hide IsDigit, RadixOf, IsSpace;
    var (s, g) := (l.Text(), |l.blanks| + |l.sign|);
    Chars(l);
    assert s[g..g + |l.prefix|] == l.prefix;
    DigitEndIs(s, g + |l.prefix|, |s|, l.Radix());
  }

  lemma {:induction false} PrefixEndIs(l: Literal)
    requires l.WellFormed()
    ensures PrefixEnd(l.Text(), |l.blanks| + |l.sign|) == |l.blanks| + |l.sign| + |l.prefix|
  {
    var (s, g) := (l.Text(), |l.blanks| + |l.sign|);
    Chars(l);
    if l.prefix == "" {
      assert s[g] == l.digits[0];
      DigitsFirst(l.digits[0], 10);
      if g + 1 < |s| {
        assert s[g + 1] == l.digits[1];
        DigitsFirst(l.digits[1], 10);
      }
    } else {
      assert s[g] == l.prefix[0];
      assert |l.prefix| == 2 ==> s[g + 1] == l.prefix[1];
    }
  }

  lemma {:induction false} MarksOf(l: Literal)
    requires l.WellFormed()
    ensures var (b, g) := (|l.blanks|, |l.blanks| + |l.sign|);
            Scan(l.Text()) == Marks(b, g, g + |l.prefix|, |l.Text()|, l.Radix())
  {
    hide SpaceEnd, SignEnd, PrefixEnd, DigitEnd, RadixOf, AllDigits, AllSpaces, IsDigit, IsSpace, Literal.WellFormed;
    HeadIs(l);
    PrefixEndIs(l);
    TailIs(l);
  }

  lemma {:induction false} ScannedIs(l: Literal)
    requires l.WellFormed()
    ensures Scanned(l.Text()) == l
  {
    MarksOf(l);
    hide Scan, RadixOf;
    var (s, b, g) := (l.Text(), |l.blanks|, |l.blanks| + |l.sign|);
    assert s[..b] == l.blanks;
    assert s[b..g] == l.sign;
    assert s[g..g + |l.prefix|] == l.prefix;
    assert s[g + |l.prefix|..|s|] == l.digits;
  }

  /** Code 0 is the literals. */
  lemma {:induction false} AcceptsExactly(s: string, isUnsigned: bool)
    ensures Code(s, isUnsigned) == 0 <==> exists l: Literal :: l.Text() == s && l.Accepted(isUnsigned)
  {
    hide Scan, RadixOf, AllDigits, AllSpaces, Value;
    ScannedShape(s);
    var (l, m) := (Scanned(s), Scan(s));
    assert m.prefix > m.sign ==> s[m.sign..m.prefix][0] == s[m.sign];
    if Code(s, isUnsigned) == 0 {
      assert s[..m.end] == s;
      assert l.Text() == s && l.Accepted(isUnsigned);
    }
    hide Overflow;
    if exists o: Literal :: o.Text() == s && o.Accepted(isUnsigned) {
      var o: Literal :| o.Text() == s && o.Accepted(isUnsigned);
      ScannedIs(o);
      MarksOf(o);
    }
  }

  // ---- where it stops ----

  /** `p` can still become an accepted literal. */
  ghost predicate Viable(p: string, isUnsigned: bool) {
    exists l: Literal :: l.Accepted(isUnsigned) && p <= l.Text()
  }

  ghost predicate Agree(s: string, t: string, n: int) {
    n <= |s| && n <= |t| && forall k | 0 <= k < n :: s[k] == t[k]
  }

  /** The scan of the head looks no further than one past what decides it. */
  lemma {:induction false} HeadAgrees(s: string, t: string, n: nat)
    requires Agree(s, t, n) && Scan(s).digits < n
    requires s[Scan(s).digits] == '0' && Scan(s).digits == Scan(s).prefix ==> Scan(s).digits + 1 < n
    ensures var (m, o) := (Scan(s), Scan(t));
            o.sign == m.sign && o.prefix == m.prefix && o.digits == m.digits && o.radix == m.radix
  {
    hide IsDigit, RadixOf, IsSpace;
    var m := Scan(s);
    assert t[m.digits] == s[m.digits] && t[m.sign] == s[m.sign] && t[m.prefix] == s[m.prefix];
    SpaceEndIs(t, 0, m.sign);
    assert SignEnd(t, m.sign) == m.prefix;
    assert m.prefix + 1 < n ==> t[m.prefix + 1] == s[m.prefix + 1];
    assert PrefixEnd(t, m.prefix) == m.digits;
    SameSlice(s, t, n, m.prefix, m.digits);
  }

  lemma SameSlice(s: string, t: string, n: int, a: nat, b: nat)
    requires Agree(s, t, n) && a <= b <= n
    ensures s[a..b] == t[a..b]
  {
    var (x, y) := (s[a..b], t[a..b]);
    assert forall k | 0 <= k < b - a :: x[k] == s[a + k] == t[a + k] == y[k];
  }

  lemma SliceHead(s: string, a: nat, e: nat, k: nat)
    requires a + k <= e <= |s|
    ensures s[a..e][..k] == s[a..a + k]
  {
  }

  lemma {:induction false} StopsAtJunk(s: string, t: string)
    requires Agree(s, t, Scan(s).end + 1)
    ensures Scan(t) == Scan(s)
  {
    hide RadixOf, IsSpace, SpaceEnd, SignEnd, PrefixEnd;
    var m := Scan(s);
    assert m.digits == m.prefix ==> m.radix == 10 by {
      TenWithoutPrefix(s);
    }
    assert t[m.end] == s[m.end];
    assert m.digits == m.end && s[m.end] == '0' ==> m.digits > m.prefix;
    HeadAgrees(s, t, m.end + 1);
    hide IsDigit;
    DigitEndIs(t, m.digits, m.end, m.radix);
  }

  lemma TenWithoutPrefix(s: string)
    ensures Scan(s).digits == Scan(s).prefix ==> Scan(s).radix == 10
  {
    var m := Scan(s);
    assert m.digits == m.prefix ==> s[m.prefix..m.digits] == "";
  }

  function OverflowIn(s: string): nat {
    ScannedShape(s);
    Overflow(Scanned(s).digits, Scan(s).radix)
  }

  lemma {:induction false} OneDigitFits(digits: string, radix: nat)
    requires AllDigits(digits, radix) && 1 <= radix <= 16 && digits != ""
    ensures Overflow(digits, radix) > 0
  {
    hide DigitValue, Value, Overflow, IsDigit;
    SmallDigit(digits[0], radix);
    assert IsDigit(digits[0], radix);
    ValueAppends("", digits[0], radix);
    assert "" + [digits[0]] == digits[..1];
  }

  lemma SmallDigit(c: char, radix: nat)
    requires radix <= 16
    ensures DigitValue(c, radix) < 16
  {
  }

  lemma RadixSmall(s: string)
    ensures 2 <= Scan(s).radix <= 16
  {
  }

  lemma DigitsOf(s: string, j: nat)
    ensures Scan(s).digits <= j < Scan(s).end ==> IsDigit(s[j], Scan(s).radix)
    ensures j == Scan(s).end < |s| ==> !IsDigit(s[j], Scan(s).radix)
  {
  }

  /** Where the texts agree, the digits of one are digits of the other. */
  lemma {:induction false} DigitsGoOn(s: string, t: string, k: nat)
    requires k > 0 && Scan(s).digits + k < Scan(s).end && Agree(s, t, Scan(s).digits + k + 1)
    ensures var (m, o) := (Scan(s), Scan(t));
            && o.digits == m.digits && o.radix == m.radix && o.end > m.digits + k
            && t[o.digits..o.end][..k + 1] == s[m.digits..m.end][..k + 1]
  {
    hide IsDigit, Scan;
    var (m, o) := (Scan(s), Scan(t));
    HeadAgrees(s, t, m.digits + k + 1);
    if o.end <= m.digits + k {
      DigitsOf(s, o.end);
      DigitsOf(t, o.end);
    }
    SliceHead(s, m.digits, m.end, k + 1);
    SliceHead(t, o.digits, o.end, k + 1);
    SameSlice(s, t, m.digits + k + 1, m.digits, m.digits + k + 1);
  }

  lemma {:induction false} StillOverflows(s: string, t: string)
    requires OverflowIn(s) < |Scanned(s).digits|
    requires Agree(s, t, Scan(s).digits + OverflowIn(s) + 1)
    ensures OverflowIn(t) < |Scanned(t).digits|
  {
    hide Scan, Agree, IsDigit, Value, Overflow, AllDigits;
    ScannedShape(s);
    ScannedShape(t);
    RadixSmall(s);
    var (m, k) := (Scan(s), OverflowIn(s));
    OneDigitFits(Scanned(s).digits, m.radix);
    DigitsGoOn(s, t, k);
    ValueGrows(Scanned(t).digits, k + 1, m.radix);
  }

  ghost predicate RefusedSign(s: string, isUnsigned: bool) {
    var m := Scan(s);
    isUnsigned && m.prefix > m.sign && s[m.sign] == '-'
  }

  lemma {:induction false} CodeOf(s: string, isUnsigned: bool)
    ensures var (m, k) := (Scan(s), OverflowIn(s));
            && k <= m.end - m.digits && |Scanned(s).digits| == m.end - m.digits
            && Code(s, isUnsigned) == if RefusedSign(s, isUnsigned) then m.sign + 2
                                      else if k < m.end - m.digits then m.digits + k + 1
                                      else if m.end == m.digits || m.end < |s| then m.end + 1
                                      else 0
  {
    hide Scan, Overflow;
  }

  lemma {:induction false} NoLiteral(s: string, isUnsigned: bool, l: Literal)
    requires l.Accepted(isUnsigned) && !RefusedSign(s, isUnsigned)
    requires 0 < Code(s, isUnsigned) <= |s|
    ensures !(s[..Code(s, isUnsigned)] <= l.Text())
  {
    hide Scan, Overflow, AllDigits, AllSpaces, RadixOf, Literal.WellFormed, Value;
    var (m, k, c, t) := (Scan(s), OverflowIn(s), Code(s, isUnsigned), l.Text());
    CodeOf(s, isUnsigned);
    ScannedIs(l);
    MarksOf(l);
    if s[..c] <= t {
      assert Agree(s, t, c) by {
        assert forall i | 0 <= i < c :: s[i] == s[..c][i] == t[i];
      }
      if k < m.end - m.digits {
        StillOverflows(s, t);
      } else {
        StopsAtJunk(s, t);
      }
    }
  }

  /** The literal the text up to the trouble could still be. */
  lemma {:induction false} StillViable(s: string, isUnsigned: bool)
    requires Code(s, isUnsigned) != 0 && !RefusedSign(s, isUnsigned)
    ensures Viable(s[..Code(s, isUnsigned) - 1], isUnsigned)
  {
    hide Scan, Overflow, AllSpaces, RadixOf, Value, IsDigit;
    var (m, k, c, l) := (Scan(s), OverflowIn(s), Code(s, isUnsigned), Scanned(s));
    CodeOf(s, isUnsigned);
    ScannedShape(s);
    RadixSmall(s);
    assert l.sign == "-" ==> s[m.sign] == l.sign[0];
    var o := l.(digits := if k < |l.digits| then l.digits[..k] else if l.digits == "" then "0" else l.digits);
    if l.digits == "" {
      ZeroFits(m.radix);
    } else {
      OneDigitFits(l.digits, m.radix);
      assert l.digits[..|l.digits|] == l.digits;
    }
    assert o.Accepted(isUnsigned);
    assert s[..c - 1] <= o.Text();
  }

  lemma ZeroFits(radix: nat)
    requires 2 <= radix <= 16
    ensures AllDigits("0", radix) && Value("0", radix) == 0
  {
    NumeralValue(0, radix);
  }

  /** A failing Code is the first position from which no literal can be reached;
    * only the '-' an unsigned variable refuses is reported one place later. */
  lemma {:induction false} FirstOffence(s: string, isUnsigned: bool)
    requires Code(s, isUnsigned) != 0
    ensures Code(s, isUnsigned) <= |s| + 1
    ensures var c := Code(s, isUnsigned);
            if RefusedSign(s, isUnsigned) then c == Scan(s).sign + 2
            else Viable(s[..c - 1], isUnsigned) && (c <= |s| ==> !Viable(s[..c], isUnsigned))
  {
    var c := Code(s, isUnsigned);
    CodeOf(s, isUnsigned);
    hide Scan, Overflow, Code, OverflowIn;
    if !RefusedSign(s, isUnsigned) {
      StillViable(s, isUnsigned);
      if c <= |s| && Viable(s[..c], isUnsigned) {
        var l: Literal :| l.Accepted(isUnsigned) && s[..c] <= l.Text();
        NoLiteral(s, isUnsigned, l);
      }
    }
  }

  // ---- printing and reading back ----

  function Magnitude(v: int): nat { if v < 0 then -v else v }

  /** A number printed in the radix of a prefix. */
  function Printed(v: int, prefix: string): string
    requires prefix in PREFIXES
  {
    (if v < 0 then "-" else "") + prefix + Numeral(Magnitude(v), RadixOf(prefix))
  }

  /** Val reads back what was printed exactly when the magnitude fits: the least
    * int64 does not, since its magnitude is one too big. */
  lemma {:induction false} PrintedReadsBack(v: int, prefix: string, isUnsigned: bool)
    requires prefix in PREFIXES
    ensures var s := Printed(v, prefix);
            && Scanned(s).WellFormed() && Scanned(s).Meaning() == v
            && (Code(s, isUnsigned) == 0 <==> Magnitude(v) <= INT64_MAX && !(isUnsigned && v < 0))
  {
    hide Numeral, Scan, Overflow, Value, Code;
    var s := Printed(v, prefix);
    var l := Literal("", if v < 0 then "-" else "", prefix, Numeral(Magnitude(v), RadixOf(prefix)));
    NumeralValue(Magnitude(v), RadixOf(prefix));
    assert l.Text() == s;
    ScannedIs(l);
    AcceptsExactly(s, isUnsigned);
    if Code(s, isUnsigned) == 0 {
      var o: Literal :| o.Text() == s && o.Accepted(isUnsigned);
      ScannedIs(o);
    }
  }

  /** The least int64 is printed with its sign, but read as a magnitude too large. */
  lemma {:induction false} LeastIsRefused(prefix: string)
    requires prefix in PREFIXES
    ensures Code(Printed(-INT64_MAX - 1, prefix), false) != 0
    ensures Code(Printed(-INT64_MAX, prefix), false) == 0
  {
    hide Printed, Code;
    PrintedReadsBack(-INT64_MAX - 1, prefix, false);
    PrintedReadsBack(-INT64_MAX, prefix, false);
  }

  // ---- the scanner itself ----

  lemma {:induction false} PrefixRadix(s: string, i: nat)
    requires i <= |s|
    ensures (PrefixEnd(s, i), RadixOf(s[i..PrefixEnd(s, i)]))
            == if i < |s| && (s[i] == '$' || s[i] == 'x' || s[i] == 'X') then (i + 1, 16)
               else if i + 1 < |s| && s[i] == '0' && (s[i + 1] == 'x' || s[i + 1] == 'X') then (i + 2, 16)
               else if i < |s| && s[i] == '&' then (i + 1, 8)
               else if i < |s| && s[i] == '%' then (i + 1, 2)
               else (i, 10)
  {
    var j := PrefixEnd(s, i);
    assert j == i + 1 ==> s[i..j] == [s[i]];
    assert j == i + 2 ==> |s[i..j]| == 2;
    assert j == i ==> s[i..j] == "";
  }

  lemma TimesOrder(a: nat, b: nat, r: nat)
    requires a <= b
    ensures a * r <= b * r
  {
    assert b * r == a * r + (b - a) * r;
  }

  lemma {:induction false} Bound(mag: nat, x: nat, radix: nat, q: nat, r: nat)
    requires x == q * radix + r && r < radix
    ensures mag > q <==> mag * radix > x
  {
    if mag > q {
      TimesOrder(q + 1, mag, radix);
    } else {
      TimesOrder(mag, q, radix);
    }
  }

  lemma {:induction false} DivBound(mag: nat, x: nat, radix: nat)
    requires radix >= 1
    ensures mag > x / radix <==> mag * radix > x
  {
    DivMod(x, radix);
    Bound(mag, x, radix, x / radix, x % radix);
  }

  /** The accumulator holds the digits so far, or the place they grew too big. */
  ghost predicate Tracks(s: string, start: nat, pos: nat, radix: nat, mag: nat, overflowAt: int) {
    && start <= pos <= |s| && radix >= 1 && AllDigits(s[start..pos], radix)
    && (overflowAt == -1 ==> mag == Value(s[start..pos], radix) && mag <= INT64_MAX)
    && (overflowAt != -1 ==> start <= overflowAt < pos && Overflow(s[start..pos], radix) == overflowAt - start)
  }

  lemma {:induction false} OverflowNext(t: string, c: char, radix: nat)
    requires AllDigits(t, radix) && IsDigit(c, radix) && radix >= 1
    ensures AllDigits(t + [c], radix)
    ensures var k := Overflow(t, radix);
            Overflow(t + [c], radix)
            == if k < |t| then k else if Value(t, radix) * radix + DigitValue(c, radix) > INT64_MAX then |t| else |t| + 1
  {
    hide DigitValue, IsDigit;
    ValueAppends(t, c, radix);
    assert (t + [c])[..|t|] == t;
  }

  lemma {:induction false} TracksNext(s: string, start: nat, pos: nat, radix: nat, mag: nat, overflowAt: int)
    requires Tracks(s, start, pos, radix, mag, overflowAt) && pos < |s| && IsDigit(s[pos], radix)
    requires radix <= 16
    ensures var d := DigitValue(s[pos], radix);
            if overflowAt != -1 then Tracks(s, start, pos + 1, radix, mag, overflowAt)
            else if mag > (INT64_MAX - d) / radix then Tracks(s, start, pos + 1, radix, mag, pos)
            else Tracks(s, start, pos + 1, radix, mag * radix + d, -1)
  {
    hide DigitValue, Overflow, Value;
    var (t, d) := (s[start..pos], DigitValue(s[pos], radix));
    assert s[start..pos + 1] == t + [s[pos]];
    OverflowNext(t, s[pos], radix);
    ValueAppends(t, s[pos], radix);
    SmallDigit(s[pos], radix);
    DivBound(mag, INT64_MAX - d, radix);
  }

  /** What the digit loop has found, once it stops. */
  lemma {:induction false} Concludes(s: string, isUnsigned: bool, mag: nat, overflowAt: int)
    requires var m := Scan(s); Tracks(s, m.digits, m.end, m.radix, mag, overflowAt)
    requires !RefusedSign(s, isUnsigned)
    ensures overflowAt != -1 ==> Code(s, isUnsigned) == overflowAt + 1
    ensures var m := Scan(s);
            overflowAt == -1 ==>
              && Code(s, isUnsigned) == (if m.end == m.digits || m.end < |s| then m.end + 1 else 0)
              && (m.end > m.digits ==>
                    && Scanned(s).WellFormed()
                    && Scanned(s).Meaning() == if m.prefix > m.sign && s[m.sign] == '-' then -(mag as int) else mag)
  {
    hide Scan, Overflow, RadixOf, AllSpaces, AllDigits, Value;
    var m := Scan(s);
    CodeOf(s, isUnsigned);
    ScannedShape(s);
    assert m.prefix > m.sign ==> s[m.sign..m.prefix][0] == s[m.sign];
  }

  method ReadPrefix(s: string, i: nat) returns (radix: nat, pos: nat)
    requires i <= |s|
    ensures pos == PrefixEnd(s, i) && radix == RadixOf(s[i..pos])
  {
    hide *;
    PrefixRadix(s, i);
    radix, pos := 10, i;
    if pos < |s| {
      if s[pos] == '$' {
        radix, pos := 16, pos + 1;
      } else if s[pos] == 'x' || s[pos] == 'X' {
        radix, pos := 16, pos + 1;
      } else if s[pos] == '0' && pos + 1 < |s| && (s[pos + 1] == 'x' || s[pos + 1] == 'X') {
        radix, pos := 16, pos + 2;
      } else if s[pos] == '&' {
        radix, pos := 8, pos + 1;
      } else if s[pos] == '%' {
        radix, pos := 2, pos + 1;
      }
    }
  }

  method ParseInt(s: string, isUnsigned: bool) returns (value: int, code: nat)
    ensures code == Code(s, isUnsigned)
    ensures code == 0 ==> Scanned(s).WellFormed() && value == Scanned(s).Meaning()
    ensures code != 0 ==> value == 0
  {
    hide Scanned, Overflow, RadixOf, PrefixEnd, DigitEnd, AllDigits, Value, DigitValue, Tracks, Code, Literal.WellFormed, Literal.Meaning;
    ghost var m := Scan(s);
    CodeOf(s, isUnsigned);
    RadixSmall(s);
    var pos := 0;
    while pos < |s| && IsSpace(s[pos])
      invariant 0 <= pos <= |s| && SpaceEnd(s, pos) == SpaceEnd(s, 0)
    {
      pos := pos + 1;
    }
    var negative := false;
    if pos < |s| && (s[pos] == '+' || s[pos] == '-') {
      if s[pos] == '-' {
        if isUnsigned {
          return 0, pos + 2;
        }
        negative := true;
      }
      pos := pos + 1;
    }
    var radix: nat;
    radix, pos := ReadPrefix(s, pos);
    assert pos == m.digits && radix == m.radix;
    var digitsStart := pos;
    var mag: nat := 0;
    var overflowAt := -1;
    Starts(s, pos, radix);
    while pos < |s|
      invariant digitsStart <= pos <= m.end
      invariant Tracks(s, digitsStart, pos, radix, mag, overflowAt)
    {
      hide *;
      ScansOn(s, pos);
      var d := DigitValue(s[pos], radix);
      if d < 0 {
        break;
      }
      SmallDigit(s[pos], radix);
      TracksNext(s, digitsStart, pos, radix, mag, overflowAt);
      if overflowAt < 0 {
        if mag > (INT64_MAX - d) / radix {
          overflowAt := pos;
        } else {
          mag := mag * radix + d;
        }
      }
      pos := pos + 1;
    }
    Concludes(s, isUnsigned, mag, overflowAt);
    if overflowAt >= 0 {
      return 0, overflowAt + 1;
    }
    if pos == digitsStart {
      return 0, pos + 1;
    }
    if pos != |s| {
      return 0, pos + 1;
    }
    var v: int := mag;
    return if negative then -v else v, 0;
  }

  lemma Starts(s: string, pos: nat, radix: nat)
    requires pos <= |s| && radix >= 1
    ensures Tracks(s, pos, pos, radix, 0, -1)
  {
    assert s[pos..pos] == "";
  }

  lemma ScansOn(s: string, pos: nat)
    requires Scan(s).digits <= pos <= Scan(s).end && pos < |s|
    ensures IsDigit(s[pos], Scan(s).radix) <==> pos < Scan(s).end
    ensures IsDigit(s[pos], Scan(s).radix) <==> DigitValue(s[pos], Scan(s).radix) >= 0
  {
  }
}
