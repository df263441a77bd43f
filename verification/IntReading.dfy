/** What a read of an integer makes of any input, told by its characters. */
module IntReading {
  import opened Numerals
  import opened IntText
  import opened ValMeaning
  import V = ValParse

  /** The input at the cursor: blanks, a sign, digits, and the rest. */
  datatype Parts = Parts(blanks: string, sign: string, digits: string, rest: string) {
    function Text(): string { blanks + sign + digits + rest }

    /** Nothing more could have gone to an earlier part. */
    predicate Cut(ds: seq<nat>) {
      && (forall i | 0 <= i < |blanks| :: blanks[i] in " \t\r\n") && sign in ["", "+", "-"] && Writes(digits, ds, 10)
      && (rest != "" ==> rest[0] !in "0123456789")
      && (sign + digits == "" && rest != "" ==> rest[0] !in " \t\r\n+-")
    }
  }

  /** A read answers 0 where only blanks are left; otherwise it is an error to find no
    * digit, or a number 64 bits do not hold, and the number is read with its sign,
    * a `+` as well as a `-`. The cursor is left behind the last digit. */
  function Answer(p: Parts, ds: seq<nat>): ReadResult {
    var v := if p.sign == "-" then 0 - Horner(ds, 10) else Horner(ds, 10);
    if p.sign == "" && p.digits == "" && p.rest == "" then Value(0)
    else if p.digits == "" then BadFormat
    else if -0x8000_0000_0000_0000 <= v < 0x8000_0000_0000_0000 then Value(v)
    else OutOfRange
  }

  lemma {:induction false} ReadsAnything(before: string, p: Parts, ds: seq<nat>)
    requires p.Cut(ds)
    ensures ReadAt(before + p.Text(), |before|) == (Answer(p, ds), |before| + |p.blanks| + |p.sign| + |p.digits|)
  {
    hide Numerals.Value, Writes, Horner, DigitValue, AllDigits, IsDigit, V.IsSpace, V.AllSpaces, Parts.Cut, Parts.Text;
    var s := before + p.Text();
    var (b, g) := (|before| + |p.blanks|, |before| + |p.blanks| + |p.sign|);
    var e := g + |p.digits|;
    CutAt(before, p);
    Marked(before, p, ds);
    Digits(p, ds);
    hide V.SpaceEnd, V.DigitEnd, V.SignEnd;
  }

  lemma Digits(p: Parts, ds: seq<nat>)
    requires p.Cut(ds)
    ensures AllDigits(p.digits, 10) && Numerals.Value(p.digits, 10) == Horner(ds, 10)
    ensures p.sign in ["", "+", "-"]
  {
    WritesValue(p.digits, ds, 10);
  }

  lemma {:induction false} Marked(before: string, p: Parts, ds: seq<nat>)
    requires p.Cut(ds)
    ensures var s := before + p.Text();
            var (b, g) := (|before| + |p.blanks|, |before| + |p.blanks| + |p.sign|);
            && |s| == g + |p.digits| + |p.rest|
            && V.SpaceEnd(s, |before|) == b && V.SignEnd(s, b) == g && V.DigitEnd(s, g, 10) == g + |p.digits|
  {
    var s := before + p.Text();
    var (b, g) := (|before| + |p.blanks|, |before| + |p.blanks| + |p.sign|);
    var e := g + |p.digits|;
    CutAt(before, p);
    Starts(p, ds);
    SignIs(p, ds);
    hide Parts.Cut, Parts.Text, IsDigit, V.IsSpace, DigitValue;
    V.SpaceEndIs(s, |before|, b);
    V.DigitEndIs(s, g, e, 10);
  }

  /** A sign is one of two characters, and no blank. */
  lemma SignIs(p: Parts, ds: seq<nat>)
    requires p.Cut(ds)
    ensures p.sign != "" ==> |p.sign| == 1 && p.sign[0] in "+-" && !V.IsSpace(p.sign[0])
  {
  }

  /** Where the parts stand in the whole text. */
  lemma {:induction false} CutAt(before: string, p: Parts)
    ensures var s := before + p.Text();
            var (b, g) := (|before| + |p.blanks|, |before| + |p.blanks| + |p.sign|);
            var e := g + |p.digits|;
            && (forall k | |before| <= k < b :: s[k] == p.blanks[k - |before|])
            && (forall k | b <= k < g :: s[k] == p.sign[k - b])
            && (forall k | g <= k < e :: s[k] == p.digits[k - g])
            && (forall k | e <= k < |s| :: s[k] == p.rest[k - e])
            && s[g..e] == p.digits && |s| == e + |p.rest|
  {
  }

  /** What each part may start with. */
  lemma {:induction false} Starts(p: Parts, ds: seq<nat>)
    requires p.Cut(ds)
    ensures V.AllSpaces(p.blanks) && AllDigits(p.digits, 10)
    ensures p.digits != "" ==> !V.IsSpace(p.digits[0]) && p.digits[0] !in "+-"
    ensures p.rest != "" ==> !IsDigit(p.rest[0], 10)
    ensures p.rest != "" && p.sign == "" && p.digits == "" ==> !V.IsSpace(p.rest[0]) && p.rest[0] !in "+-"
  {
    WritesValue(p.digits, ds, 10);
    BlanksAre(p.blanks);
    assert p.digits != "" ==> IsDigit(p.digits[0], 10);
    if p.rest != "" {
      assert "0123456789" == [LOWER[0], LOWER[1], LOWER[2], LOWER[3], LOWER[4], LOWER[5], LOWER[6], LOWER[7], LOWER[8], LOWER[9]];
    }
  }

  /** A number is written in decimal behind as many blanks as the width asks for, and
    * never cut; a width no int32 holds stops the program. */
  lemma {:induction false} WrittenShape(v: int, w: int)
    ensures WriteI64(v, w).WidthTooLarge? <==> w > 0x7FFF_FFFF
    ensures w <= 0x7FFF_FFFF ==>
              var text := WriteI64(v, w).text;
              && |text| == (if w > |Decimal(v)| then w else |Decimal(v)|)
              && forall i | 0 <= i < |text| ::
                   text[i] == var from := |text| - |Decimal(v)|; if i < from then ' ' else Decimal(v)[i - from]
    ensures v < 0 ==> Decimal(v) == "-" + Decimal(-v)
    ensures 0 <= v < 10 ==> Decimal(v) == ["0123456789"[v]]
    ensures v >= 10 ==> Decimal(v) == Decimal(v / 10) + ["0123456789"[v % 10]]
  {
    assert forall d | 0 <= d < 10 :: "0123456789"[d] == ('0' as int + d) as char;
    assert v >= 10 ==> Numeral(v, 10) == Numeral(v / 10, 10) + [DigitChar(v % 10)];
  }
}
