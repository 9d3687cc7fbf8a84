/**
 * Base-10 text of integers: `to_string` of a non-negative number (num-bigint
 * and arkworks field elements print canonical decimal) and num-bigint's
 * `BigInt::from_str`, which accepts an optional sign and `_` separators.
 */
module Decimal {
  import opened Wrappers

  predicate IsDigit(c: char)
  {
    '0' <= c <= '9'
  }

  function DigitChar(d: nat): (c: char)
    requires d < 10
    ensures IsDigit(c) && c as int - '0' as int == d
  {
    ('0' as int + d) as char
  }

  /** `to_string` of a non-negative integer: decimal digits, no sign, no leading zero. */
  function NatToDecimal(n: nat): (s: string)
    ensures |s| >= 1 && forall i :: 0 <= i < |s| ==> IsDigit(s[i])
    ensures s[0] == '0' <==> n == 0
    ensures n == 0 ==> s == "0"
  {
    if n < 10 then [DigitChar(n)] else NatToDecimal(n / 10) + [DigitChar(n % 10)]
  }

  /**
   * The value of a run of decimal digits in which `_` separators are skipped;
   * None if any other character occurs.
   */
  function DigitsValue(t: string): (r: Option<nat>)
    decreases |t|
  {
    if t == [] then Some(0)
    else
      var c := t[|t| - 1];
      match DigitsValue(t[..|t| - 1])
      case None => None
      case Some(p) =>
        if c == '_' then Some(p)
        else if IsDigit(c) then Some(10 * p + (c as int - '0' as int))
        else None
  }

  /**
   * `BigUint::from_str_radix(s, 10)`: one leading `+` is dropped unless another
   * `+` follows it; the rest must be non-empty, must not start with `_`, and
   * must be digits and separators.
   */
  function ParseBigUint(s: string): Option<nat>
  {
    var t := if |s| >= 1 && s[0] == '+' && !(|s| >= 2 && s[1] == '+') then s[1..] else s;
    if t == [] || t[0] == '_' then None else DigitsValue(t)
  }

  /**
   * `BigInt::from_str(s)`: a leading `-` not followed by `+` negates the
   * unsigned parse of the rest; otherwise the whole text is parsed unsigned.
   */
  function ParseBigInt(s: string): Option<int>
  {
    if |s| >= 1 && s[0] == '-' && !(|s| >= 2 && s[1] == '+') then
      match ParseBigUint(s[1..])
      case None => None
      case Some(m) => Some(0 - m as int)
    else
      match ParseBigUint(s)
      case None => None
      case Some(m) => Some(m)
  }

  /** A digit run is accepted exactly when every character is a digit or `_`. */
  lemma {:induction false} DigitsValueAccepts(t: string)
    ensures DigitsValue(t).Some? <==> forall i :: 0 <= i < |t| ==> IsDigit(t[i]) || t[i] == '_'
    decreases |t|
  {
    if t != [] {
      var pre := t[..|t| - 1];
      DigitsValueAccepts(pre);
      assert forall i :: 0 <= i < |pre| ==> pre[i] == t[i];
    }
  }

  /** How many sign characters `from_str` accepts at the start of `s`: at most one. */
  function SignLength(s: string): (k: nat)
    ensures k <= 1 && k <= |s|
  {
    if |s| >= 1 && (s[0] == '-' || s[0] == '+') then 1 else 0
  }

  /**
   * `BigInt::from_str` accepts exactly an optional sign followed by a
   * non-empty run of digits and `_` that does not start with `_`; the value
   * is that run's, negated after a `-`.
   */
  lemma FromStrAccepts(s: string)
    ensures var k := SignLength(s);
      ParseBigInt(s).Some? <==>
        |s| > k && s[k] != '_' && forall i :: k <= i < |s| ==> IsDigit(s[i]) || s[i] == '_'
    ensures var k := SignLength(s);
      ParseBigInt(s).Some? ==>
        DigitsValue(s[k..]).Some? &&
        ParseBigInt(s).value == (if s[0] == '-' then 0 - DigitsValue(s[k..]).value as int else DigitsValue(s[k..]).value)
  {
    var k := SignLength(s);
    var t := s[k..];
    DigitsValueAccepts(t);
    assert forall i :: k <= i < |s| ==> s[i] == t[i - k];
    if k == 1 && |s| >= 2 {
      DigitsValueAccepts(s[1..]);
      DigitsValueAccepts(s);
      assert s[1..][1..] == s[2..];
    } else if k == 0 && s != [] {
      DigitsValueAccepts(s);
    }
  }

  lemma {:induction false} DigitsOfDecimal(n: nat)
    ensures DigitsValue(NatToDecimal(n)) == Some(n)
  {
    var s := NatToDecimal(n);
    if n >= 10 {
      DigitsOfDecimal(n / 10);
      assert s[..|s| - 1] == NatToDecimal(n / 10);
    }
  }

  /** Printing a natural number and parsing it back, unsigned, gives the number. */
  lemma DecimalUintRoundTrip(n: nat)
    ensures ParseBigUint(NatToDecimal(n)) == Some(n)
  {
    DigitsOfDecimal(n);
    var s := NatToDecimal(n);
    assert IsDigit(s[0]);
  }

  /** Printing a natural number and parsing it back gives the number. */
  lemma DecimalRoundTrip(n: nat)
    ensures ParseBigInt(NatToDecimal(n)) == Some(n)
  {
    DecimalUintRoundTrip(n);
    var s := NatToDecimal(n);
    assert IsDigit(s[0]);
  }

  /** Distinct numbers print differently. */
  lemma DecimalInjective(m: nat, n: nat)
    requires NatToDecimal(m) == NatToDecimal(n)
    ensures m == n
  {
    DecimalRoundTrip(m);
    DecimalRoundTrip(n);
  }
}
