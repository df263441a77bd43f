/** Numerals in a radix: the printers' digits and the value they stand for. */
module Numerals {
  /** The digit value of `c` in `radix`, or -1; letters count in either case. */
  function DigitValue(c: char, radix: int): int {
    var d :=
      if '0' <= c <= '9' then c as int - '0' as int
      else if 'a' <= c <= 'z' then c as int - 'a' as int + 10
      else if 'A' <= c <= 'Z' then c as int - 'A' as int + 10
      else -1;
    if d < radix then d else -1
  }

  predicate IsDigit(c: char, radix: int) { DigitValue(c, radix) >= 0 }

  predicate AllDigits(s: string, radix: int) {
    forall i | 0 <= i < |s| :: IsDigit(s[i], radix)
  }

  /** The number a string of digits stands for. */
  function Value(s: string, radix: nat): nat
    requires AllDigits(s, radix)
  {
    if s == [] then 0 else Value(s[..|s| - 1], radix) * radix + DigitValue(s[|s| - 1], radix)
  }

  function DigitChar(d: nat): char
    requires d < 16
  {
    if d < 10 then ('0' as int + d) as char else ('A' as int + d - 10) as char
  }

  function Numeral(n: nat, radix: nat): (s: string)
    requires 2 <= radix <= 16
    ensures s != []
  {
    if n < radix then [DigitChar(n)] else Numeral(n / radix, radix) + [DigitChar(n % radix)]
  }

  lemma {:induction false} NumeralStep(n: nat, radix: nat) returns (q: nat, d: nat)
    requires 2 <= radix <= n && radix <= 16
    ensures q * radix + d == n && d < radix && q < n
    ensures Numeral(n, radix) == Numeral(q, radix) + [DigitChar(d)]
  {
    hide DigitChar;
    q, d := n / radix, n % radix;
    DivMod(n, radix);
    assert q < n by {
      TimesGrows(q, radix);
    }
  }

  lemma {:induction false} NumeralValue(n: nat, radix: nat)
    requires 2 <= radix <= 16
    ensures AllDigits(Numeral(n, radix), radix) && Value(Numeral(n, radix), radix) == n
  {
    hide DigitChar, DigitValue, Value, AllDigits, IsDigit;
    if n < radix {
      DigitBack(n, radix);
      ValueAppends("", DigitChar(n), radix);
      assert "" + [DigitChar(n)] == [DigitChar(n)];
    } else {
      hide Numeral;
      var q, d := NumeralStep(n, radix);
      NumeralValue(q, radix);
      DigitBack(d, radix);
      ValueAppends(Numeral(q, radix), DigitChar(d), radix);
    }
  }

  lemma DigitBack(d: nat, radix: nat)
    requires d < radix <= 16
    ensures DigitValue(DigitChar(d), radix) == d && IsDigit(DigitChar(d), radix)
  {
  }

  lemma DivMod(n: nat, radix: nat)
    requires radix >= 1
    ensures n / radix * radix + n % radix == n
  {
  }

  lemma ValueAppends(s: string, c: char, radix: nat)
    requires (s == "" || AllDigits(s, radix)) && IsDigit(c, radix)
    ensures AllDigits(s, radix) && AllDigits(s + [c], radix)
    ensures Value("", radix) == 0
    ensures Value(s + [c], radix) == Value(s, radix) * radix + DigitValue(c, radix)
  {
    assert (s + [c])[..|s|] == s;
  }

  /** More digits, never a smaller number. */
  lemma {:induction false} ValueGrows(s: string, k: nat, radix: nat)
    requires k <= |s| && AllDigits(s, radix) && radix >= 1
    ensures Value(s[..k], radix) <= Value(s, radix)
    decreases |s|
  {
    if k == |s| {
      assert s[..k] == s;
    } else {
      var t := s[..|s| - 1];
      ValueGrows(t, k, radix);
      assert t[..k] == s[..k];
      TimesGrows(Value(t, radix), radix);
    }
  }

  lemma TimesGrows(v: nat, radix: nat)
    requires radix >= 1
    ensures v <= v * radix
  {
    assert v * radix == v + v * (radix - 1);
  }
}
