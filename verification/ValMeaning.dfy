/** The literals Val takes, told by their characters. */
module ValMeaning {
  import opened Numerals
  import opened ValParse

  const LOWER := "0123456789abcdef"
  const UPPER := "0123456789ABCDEF"

  /** `$`, `x` and `0x` are for 16, `&` for 8, `%` for 2, and nothing for 10. */
  predicate IsPrefix(prefix: string, radix: nat) {
    || (prefix == "" && radix == 10) || (prefix == "&" && radix == 8) || (prefix == "%" && radix == 2)
    || (prefix in ["$", "x", "X", "0x", "0X"] && radix == 16)
  }

  function Horner(ds: seq<nat>, radix: nat): nat {
    if ds == [] then 0 else Horner(ds[..|ds| - 1], radix) * radix + ds[|ds| - 1]
  }

  /** Each character is the digit beside it, in either case. */
  predicate Writes(digits: string, ds: seq<nat>, radix: nat) {
    |digits| == |ds| && forall i | 0 <= i < |ds| :: ds[i] < radix && ds[i] < 16 && digits[i] in [LOWER[ds[i]], UPPER[ds[i]]]
  }

  /** Blanks, a sign, a prefix and digits, and the number they stand for. */
  predicate Spells(l: Literal, ds: seq<nat>, radix: nat, v: int) {
    && (forall i | 0 <= i < |l.blanks| :: l.blanks[i] in " \t\r\n") && l.sign in ["", "+", "-"]
    && IsPrefix(l.prefix, radix) && ds != [] && Writes(l.digits, ds, radix)
    && v == if l.sign == "-" then 0 - Horner(ds, radix) else Horner(ds, radix)
  }

  lemma DigitIs(c: char, d: nat, radix: nat)
    requires radix <= 16
    ensures DigitValue(c, radix) == d <==> d < radix && c in [LOWER[d], UPPER[d]]
  {
    if d < 16 {
      assert LOWER[d] == if d < 10 then ('0' as int + d) as char else ('a' as int + d - 10) as char;
      assert UPPER[d] == if d < 10 then ('0' as int + d) as char else ('A' as int + d - 10) as char;
    }
  }

  lemma {:induction false} WritesValue(digits: string, ds: seq<nat>, radix: nat)
    requires radix <= 16 && Writes(digits, ds, radix)
    ensures AllDigits(digits, radix) && Value(digits, radix) == Horner(ds, radix)
  {
    hide DigitValue;
    forall i | 0 <= i < |digits|
      ensures DigitValue(digits[i], radix) == ds[i]
    {
      DigitIs(digits[i], ds[i], radix);
    }
    if digits != [] {
      WritesValue(digits[..|digits| - 1], ds[..|ds| - 1], radix);
    }
  }

  lemma {:induction false} DigitsWritten(digits: string, radix: nat) returns (ds: seq<nat>)
    requires radix <= 16 && AllDigits(digits, radix)
    ensures Writes(digits, ds, radix)
  {
    hide DigitValue;
    assert forall i | 0 <= i < |digits| :: IsDigit(digits[i], radix);
    ds := seq(|digits|, i requires 0 <= i < |digits| => if DigitValue(digits[i], radix) >= 0 then DigitValue(digits[i], radix) else 0);
    forall i | 0 <= i < |digits|
      ensures ds[i] < radix && digits[i] in [LOWER[ds[i]], UPPER[ds[i]]]
    {
      DigitIs(digits[i], ds[i], radix);
    }
  }

  lemma PrefixIs(prefix: string)
    ensures prefix in PREFIXES <==> exists radix :: IsPrefix(prefix, radix)
    ensures forall radix | IsPrefix(prefix, radix) :: RadixOf(prefix) == radix <= 16
    ensures prefix in PREFIXES ==> IsPrefix(prefix, RadixOf(prefix)) && RadixOf(prefix) <= 16
  {
    assert prefix in PREFIXES ==> IsPrefix(prefix, RadixOf(prefix));
  }

  lemma BlanksAre(blanks: string)
    ensures AllSpaces(blanks) <==> forall i | 0 <= i < |blanks| :: blanks[i] in " \t\r\n"
  {
  }

  lemma {:induction false} SpelledIsWellFormed(l: Literal, ds: seq<nat>, radix: nat, v: int)
    requires Spells(l, ds, radix, v)
    ensures l.WellFormed() && l.Meaning() == v && l.Magnitude() == Horner(ds, radix)
  {
    hide DigitValue, AllDigits, AllSpaces, Value, RadixOf, Horner;
    PrefixIs(l.prefix);
    BlanksAre(l.blanks);
    WritesValue(l.digits, ds, radix);
  }

  lemma {:induction false} WellFormedIsSpelled(l: Literal) returns (ds: seq<nat>)
    requires l.WellFormed()
    ensures Spells(l, ds, l.Radix(), l.Meaning())
  {
    hide DigitValue, AllDigits, AllSpaces, Value, RadixOf, Horner;
    PrefixIs(l.prefix);
    BlanksAre(l.blanks);
    ds := DigitsWritten(l.digits, l.Radix());
    WritesValue(l.digits, ds, l.Radix());
  }

  /** Val takes exactly the texts that spell a number whose magnitude 63 bits hold, a
    * negative one only where the destination has a sign; what it delivers is the number. */
  lemma {:induction false} ValTakes(s: string, isUnsigned: bool)
    ensures Code(s, isUnsigned) == 0 <==>
            exists l: Literal, ds, radix, v ::
              && Spells(l, ds, radix, v) && l.Text() == s
              && -0x8000_0000_0000_0000 < v < 0x8000_0000_0000_0000 && !(isUnsigned && l.sign == "-")
    ensures forall l: Literal, ds, radix, v | Spells(l, ds, radix, v) && l.Text() == s ::
              Scanned(s) == l && l.WellFormed() && l.Meaning() == v
  {
    hide Code, Scanned, Spells, Literal.WellFormed, Literal.Meaning, Literal.Magnitude, Literal.Text, Literal.Radix;
    AcceptsExactly(s, isUnsigned);
    if Code(s, isUnsigned) == 0 {
      var l: Literal :| l.Text() == s && l.Accepted(isUnsigned);
      var ds := WellFormedIsSpelled(l);
      Bounds(l);
      assert Spells(l, ds, l.Radix(), l.Meaning());
    }
    forall l: Literal, ds, radix, v | Spells(l, ds, radix, v) && l.Text() == s
      ensures Scanned(s) == l && l.WellFormed() && l.Meaning() == v
      ensures -0x8000_0000_0000_0000 < v < 0x8000_0000_0000_0000 && !(isUnsigned && l.sign == "-") ==> l.Accepted(isUnsigned)
    {
      SpelledIsWellFormed(l, ds, radix, v);
      ScannedIs(l);
      Bounds(l);
    }
  }

  lemma Bounds(l: Literal)
    requires l.WellFormed()
    ensures l.Magnitude() <= INT64_MAX <==> -0x8000_0000_0000_0000 < l.Meaning() < 0x8000_0000_0000_0000
  {
  }
}
