/**
 Decimal numerals over ASCII digits: the integer literals of the ledger's
 quantity column and the fixed-width fields of its dates.
 */
module Numerals {
  import opened Wrappers

  predicate IsDigit(c: char) {
    '0' <= c <= '9'
  }

  predicate AllDigits(s: string) {
    forall i | 0 <= i < |s| :: IsDigit(s[i])
  }

  function DigitValue(c: char): (v: nat)
    requires IsDigit(c)
    ensures v < 10
  {
    c as int - '0' as int
  }

  function DigitChar(v: nat): (c: char)
    requires v < 10
    ensures IsDigit(c) && DigitValue(c) == v
  {
    ('0' as int + v) as char
  }

  function Pow10(n: nat): (p: nat)
    ensures p >= 1
  {
    if n == 0 then 1 else 10 * Pow10(n - 1)
  }

  /** The value of a digit string, most significant digit first. */
  function DigitsValue(s: string): nat
    requires AllDigits(s)
  {
    if |s| == 0 then 0 else 10 * DigitsValue(s[..|s| - 1]) + DigitValue(s[|s| - 1])
  }

  /** `n` written with exactly `width` digits, padded with leading zeros. */
  function FormatFixed(n: nat, width: nat): (s: string)
    requires n < Pow10(width)
    ensures |s| == width && AllDigits(s)
  {
    if width == 0 then "" else FormatFixed(n / 10, width - 1) + [DigitChar(n % 10)]
  }

  /** `n` written with as few digits as possible. */
  function FormatNat(n: nat): (s: string)
    ensures |s| >= 1 && AllDigits(s)
  {
    if n < 10 then [DigitChar(n)] else FormatNat(n / 10) + [DigitChar(n % 10)]
  }

  /** Reading a fixed-width rendering gives back the number. */
  lemma {:induction false} FixedRoundTrip(n: nat, width: nat)
    requires n < Pow10(width)
    ensures DigitsValue(FormatFixed(n, width)) == n
  {
    if width > 0 {
      var s := FormatFixed(n, width);
      assert s[..|s| - 1] == FormatFixed(n / 10, width - 1);
      FixedRoundTrip(n / 10, width - 1);
    }
  }

  /** A digit string of length w is the fixed-width rendering of its own value. */
  lemma {:induction false} FixedCanonical(s: string)
    requires AllDigits(s)
    ensures DigitsValue(s) < Pow10(|s|)
    ensures FormatFixed(DigitsValue(s), |s|) == s
  {
    if |s| > 0 {
      var p := s[..|s| - 1];
      FixedCanonical(p);
      var v := DigitsValue(s);
      assert v / 10 == DigitsValue(p) && v % 10 == DigitValue(s[|s| - 1]);
      assert DigitChar(v % 10) == s[|s| - 1];
      assert s == p + [s[|s| - 1]];
    }
  }

  /** Reading a minimal rendering gives back the number. */
  lemma {:induction false} NatRoundTrip(n: nat)
    ensures DigitsValue(FormatNat(n)) == n
  {
    if n >= 10 {
      var s := FormatNat(n);
      assert s[..|s| - 1] == FormatNat(n / 10);
      NatRoundTrip(n / 10);
    }
  }

  /** The text after a leading `+` or `-`, or the whole text when it has no sign. */
  function Unsigned(s: string): string {
    if |s| >= 1 && (s[0] == '-' || s[0] == '+') then s[1..] else s
  }

  /**
   Integer literal: an optional `+` or `-` sign followed by one or more
   ASCII digits. The result's magnitude is the value of those digits, and it
   is negative only under a `-`.
   */
  function ParseInt(s: string): (r: Option<int>)
    ensures r.Some? ==> |s| >= 1 && (s[0] == '-' || IsDigit(s[0]) || s[0] == '+')
    ensures r.Some? && r.value < 0 ==> s[0] == '-'
  {
    if |s| >= 2 && (s[0] == '-' || s[0] == '+') && AllDigits(s[1..]) then
      var magnitude: int := DigitsValue(s[1..]);
      Some(if s[0] == '-' then -magnitude else magnitude)
    else if |s| >= 1 && AllDigits(s) then
      Some(DigitsValue(s))
    else
      None
  }

  /**
   The parser accepts exactly the texts that are an optional sign followed
   by one or more ASCII digits; the digits give the magnitude and a
   leading `-` negates it.
   */
  lemma ParseIntExact(s: string)
    ensures ParseInt(s).Some? <==> |Unsigned(s)| >= 1 && AllDigits(Unsigned(s))
    ensures ParseInt(s).Some? ==>
      var m: int := DigitsValue(Unsigned(s)); ParseInt(s).value == (if s[0] == '-' then -m else m)
  {
    if |s| == 1 && (s[0] == '-' || s[0] == '+') {
      assert !IsDigit(s[0]);
    }
  }

  /** Canonical decimal rendering of an integer. */
  function FormatInt(n: int): string {
    if n < 0 then "-" + FormatNat(-n) else FormatNat(n)
  }

  /** Every integer has a literal that the parser reads back as that integer. */
  lemma IntRoundTrip(n: int)
    ensures ParseInt(FormatInt(n)) == Some(n)
  {
    var s := FormatInt(n);
    if n < 0 {
      var d := FormatNat(-n);
      assert s == "-" + d && s[1..] == d;
      NatRoundTrip(-n);
      assert |s| >= 2 && s[0] == '-' && AllDigits(s[1..]);
    } else {
      NatRoundTrip(n);
      assert IsDigit(s[0]);
      assert !(|s| >= 2 && (s[0] == '-' || s[0] == '+'));
    }
  }
}
