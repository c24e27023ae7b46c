/**
 Small concrete converters to instantiate the parser with. They stand in for
 Rust's `u32::from_str` and `f64::from_str` only on plain decimal digits, an
 optional point and an optional leading minus sign.
 */
module Decimal {
  import opened Wrappers
  import opened Text

  predicate IsDigit(ch: char) {
    '0' <= ch <= '9'
  }

  predicate AllDigits(s: string) {
    forall i | 0 <= i < |s| :: IsDigit(s[i])
  }

  /** The value of a digit string, most significant digit first. */
  function DigitsValue(s: string): nat
    requires AllDigits(s)
  {
    if |s| == 0 then 0
    else 10 * DigitsValue(s[..|s| - 1]) + (s[|s| - 1] as int - '0' as int)
  }

  function Pow10(n: nat): (r: nat)
    ensures r >= 1
  {
    if n == 0 then 1 else 10 * Pow10(n - 1)
  }

  /** A non-empty run of decimal digits, or nothing. */
  function DecimalNat(s: string): Option<nat> {
    if |s| > 0 && AllDigits(s) then Some(DigitsValue(s)) else None
  }

  /** Digits, optionally followed by a point and more digits. */
  function UnsignedDecimal(s: string): Option<real> {
    match Find(s, '.')
    case None =>
      if DecimalNat(s).Some? then Some(DecimalNat(s).value as real) else None
    case Some(k) =>
      var whole, frac := DecimalNat(s[..k]), DecimalNat(s[k + 1..]);
      if whole.Some? && frac.Some? then
        Some(whole.value as real + frac.value as real / Pow10(|s| - k - 1) as real)
      else
        None
  }

  /** An unsigned decimal with an optional leading minus sign. */
  function DecimalReal(s: string): Option<real> {
    if |s| > 0 && s[0] == '-' then
      match UnsignedDecimal(s[1..])
      case Some(v) => Some(-v)
      case None => None
    else
      UnsignedDecimal(s)
  }

  /** A single digit converts to its value. */
  lemma OneDigit(d: char)
    requires IsDigit(d)
    ensures DecimalNat([d]) == Some(d as int - '0' as int)
  {
    assert [d][..0] == [];
    assert DigitsValue([d]) == 10 * DigitsValue([]) + (d as int - '0' as int);
  }

  /** Three digits convert to their positional value. */
  lemma ThreeDigits(d0: char, d1: char, d2: char)
    requires IsDigit(d0) && IsDigit(d1) && IsDigit(d2)
    ensures DecimalNat([d0, d1, d2])
              == Some(100 * (d0 as int - '0' as int) + 10 * (d1 as int - '0' as int) + (d2 as int - '0' as int))
  {
    assert [d0, d1, d2][..2] == [d0, d1];
    assert [d0, d1][..1] == [d0];
    assert [d0][..0] == [];
    assert DigitsValue([d0]) == d0 as int - '0' as int;
    assert DigitsValue([d0, d1]) == 10 * (d0 as int - '0' as int) + (d1 as int - '0' as int);
  }

  /** A digit, a point and a digit convert to the matching real. */
  lemma PointDigits(d0: char, d1: char)
    requires IsDigit(d0) && IsDigit(d1)
    ensures DecimalReal([d0, '.', d1])
              == Some((d0 as int - '0' as int) as real + (d1 as int - '0' as int) as real / 10.0)
  {
    var s := [d0, '.', d1];
    assert s == [d0] + ['.'] + [d1];
    FindFirst([d0], '.', [d1]);
    assert s[..1] == [d0] && s[2..] == [d1];
    OneDigit(d0);
    OneDigit(d1);
    assert Pow10(|s| - 1 - 1) == 10;
    assert UnsignedDecimal(s)
             == Some((d0 as int - '0' as int) as real + (d1 as int - '0' as int) as real / 10.0);
  }

  /** A leading minus sign negates what follows. */
  lemma Negated(t: string)
    requires |t| == 0 || t[0] != '-'
    ensures DecimalReal(['-'] + t)
              == match DecimalReal(t)
                 case Some(v) => Some(-v)
                 case None => None
  {
  }
}
