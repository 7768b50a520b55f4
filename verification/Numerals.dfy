/** Decimal numerals: `{}` formatting and `str::parse` for unsigned integers. */
module Numerals {
  import opened Wrappers

  predicate IsDigit(c: char) {
    '0' <= c <= '9'
  }

  function Digit(d: nat): (c: char)
    requires d < 10
    ensures IsDigit(c) && c as int - '0' as int == d
  {
    ('0' as int + d) as char
  }

  function Decimal(n: nat): (s: string)
    ensures s != [] && forall i :: 0 <= i < |s| ==> IsDigit(s[i])
  {
    if n < 10 then [Digit(n)] else Decimal(n / 10) + [Digit(n % 10)]
  }

  function DigitsValue(s: string): Option<nat> {
    if s == [] then Some(0)
    else
      var last := s[|s| - 1];
      match DigitsValue(s[..|s| - 1])
      case Some(n) => if IsDigit(last) then Some(10 * n + (last as int - '0' as int)) else None
      case None => None
  }

  /** `parse::<uN>()`: an optional plus sign, at least one digit, and a value within the type. */
  function ParseUint(s: string, max: nat): Option<nat> {
    var digits := if s != [] && s[0] == '+' then s[1..] else s;
    if digits == [] then None
    else
      match DigitsValue(digits)
      case Some(n) => if n <= max then Some(n) else None
      case None => None
  }

  lemma {:induction false} DigitsOfDecimal(n: nat)
    ensures DigitsValue(Decimal(n)) == Some(n)
  {
    if n < 10 {
      assert Decimal(n)[..0] == [];
    } else {
      DigitsOfDecimal(n / 10);
      var s := Decimal(n);
      assert s[..|s| - 1] == Decimal(n / 10);
    }
  }

  lemma ParseDecimal(n: nat, max: nat)
    requires n <= max
    ensures ParseUint(Decimal(n), max) == Some(n)
  {
    DigitsOfDecimal(n);
  }

  lemma {:induction false} OnlyDigitsCount(s: string, i: nat)
    requires i < |s| && !IsDigit(s[i])
    ensures DigitsValue(s).None?
  {
    if i < |s| - 1 { OnlyDigitsCount(s[..|s| - 1], i); }
  }

  /** No text with another character than digits behind an optional plus sign is read. */
  lemma NotANumeral(s: string, max: nat)
    requires s == "" || exists i :: 0 <= i < |s| && !IsDigit(s[i]) && (i > 0 || s[i] != '+')
    ensures ParseUint(s, max) == None
  {
    if s != "" {
      var i :| 0 <= i < |s| && !IsDigit(s[i]) && (i > 0 || s[i] != '+');
      if s[0] == '+' {
        if s[1..] != "" { OnlyDigitsCount(s[1..], i - 1); }
      } else {
        OnlyDigitsCount(s, i);
      }
    }
  }

  lemma DecimalInjective(m: nat, n: nat)
    requires Decimal(m) == Decimal(n)
    ensures m == n
  {
    DigitsOfDecimal(m);
    DigitsOfDecimal(n);
  }
}
