/** Decimal rendering of line numbers, as JavaScript's string concatenation
    `"..." + n` renders a non-negative integer Number, and its inverse. */
module Decimal {

  predicate IsDigit(c: char) {
    '0' <= c <= '9'
  }

  predicate AllDigits(s: string) {
    forall i :: 0 <= i < |s| ==> IsDigit(s[i])
  }

  /** The shortest decimal spelling: at least one digit, no leading zero
      unless the number is zero itself. */
  predicate IsCanonical(s: string) {
    && |s| >= 1
    && AllDigits(s)
    && (s[0] == '0' ==> |s| == 1)
  }

  function DigitChar(d: nat): (c: char)
    requires d < 10
    ensures IsDigit(c)
    ensures c as int - '0' as int == d
  {
    ('0' as int + d) as char
  }

  function DigitValue(c: char): (d: nat)
    requires IsDigit(c)
    ensures d < 10
    ensures DigitChar(d) == c
  {
    c as int - '0' as int
  }

  /** The text JavaScript produces for a non-negative integer below 1e21. */
  function FromNat(n: nat): (s: string)
    ensures IsCanonical(s)
    ensures s[0] == '0' <==> n == 0
    decreases n
  {
    if n < 10 then [DigitChar(n)] else FromNat(n / 10) + [DigitChar(n % 10)]
  }

  /** The number a string of digits spells in base 10. */
  function Value(s: string): nat
    requires AllDigits(s)
    decreases |s|
  {
    if s == [] then 0 else 10 * Value(s[..|s| - 1]) + DigitValue(s[|s| - 1])
  }

  /** Reading back the rendering of n gives n. */
  lemma {:induction false} ValueOfFromNat(n: nat)
    ensures Value(FromNat(n)) == n
    decreases n
  {
    var s := FromNat(n);
    if n < 10 {
      assert s[..|s| - 1] == [];
    } else {
      assert s[..|s| - 1] == FromNat(n / 10);
      ValueOfFromNat(n / 10);
    }
  }

  /** A canonical digit string with a non-zero first digit spells a positive number. */
  lemma {:induction false} ValuePositive(s: string)
    requires IsCanonical(s) && s[0] != '0'
    ensures Value(s) >= 1
    decreases |s|
  {
    if |s| > 1 {
      var t := s[..|s| - 1];
      assert t[0] == s[0];
      ValuePositive(t);
    } else {
      assert s[..|s| - 1] == [];
    }
  }

  /** Every canonical digit string is the rendering of the number it spells,
      so FromNat is a bijection between nat and canonical strings. */
  lemma {:induction false} FromNatOfValue(s: string)
    requires IsCanonical(s)
    ensures FromNat(Value(s)) == s
    decreases |s|
  {
    var t := s[..|s| - 1];
    var d := DigitValue(s[|s| - 1]);
    if |s| == 1 {
      assert t == [];
      assert Value(s) == d;
    } else {
      assert t[0] == s[0];
      ValuePositive(t);
      FromNatOfValue(t);
      var v := Value(s);
      assert v == 10 * Value(t) + d;
      assert v >= 10;
      assert v / 10 == Value(t) && v % 10 == d;
      assert s == t + [s[|s| - 1]];
    }
  }
}
