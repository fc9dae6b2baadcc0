/**
 * Decimal integers as text: Python's `f"{n}"` for an `int` and `int(s)` for
 * the strings it produces (an optional sign followed by ASCII digits).
 */
module Numbers {
  import opened Maybe

  predicate IsDigit(c: char) { '0' <= c <= '9' }

  predicate AllDigits(s: string) { forall i :: 0 <= i < |s| ==> IsDigit(s[i]) }

  function DigitChar(d: nat): (c: char)
    requires d < 10
    ensures IsDigit(c)
  {
    ('0' as int + d) as char
  }

  function DigitValue(c: char): (d: nat)
    requires IsDigit(c)
    ensures d < 10 && DigitChar(d) == c
  {
    c as int - '0' as int
  }

  /** `f"{n}"` for a non-negative `n`: no leading zeros. */
  function NatToString(n: nat): (s: string)
    ensures |s| >= 1 && AllDigits(s)
    ensures |s| > 1 ==> s[0] != '0'
  {
    if n < 10 then [DigitChar(n)] else NatToString(n / 10) + [DigitChar(n % 10)]
  }

  /** `f"{n}"`: a minus sign before the digits of a negative `n`. */
  function IntToString(n: int): (s: string)
    ensures |s| >= 1 && (AllDigits(s) || (s[0] == '-' && AllDigits(s[1..])))
  {
    if n < 0 then "-" + NatToString(-n) else NatToString(n)
  }

  /** The value of a non-empty run of digits. */
  function DigitsValue(s: string): nat
    requires |s| >= 1 && AllDigits(s)
  {
    if |s| == 1 then DigitValue(s[0])
    else DigitsValue(s[..|s| - 1]) * 10 + DigitValue(s[|s| - 1])
  }

  /** `int(s)` for a sign and decimal digits; `None` is Python's `ValueError`. */
  function ParseInt(s: string): Option<int>
  {
    if |s| >= 1 && AllDigits(s) then Some(DigitsValue(s))
    else if |s| >= 2 && (s[0] == '-' || s[0] == '+') && AllDigits(s[1..]) then
      var v: int := DigitsValue(s[1..]);
      Some(if s[0] == '-' then -v else v)
    else None
  }

  lemma {:induction false} NatRoundTrip(n: nat)
    ensures DigitsValue(NatToString(n)) == n
  {
    if n >= 10 {
      var s := NatToString(n);
      NatRoundTrip(n / 10);
      assert s[..|s| - 1] == NatToString(n / 10);
    }
  }

  /** Parsing what `f"{n}"` prints gives `n` back, for every integer. */
  lemma IntRoundTrip(n: int)
    ensures ParseInt(IntToString(n)) == Some(n)
  {
    if n < 0 {
      var digits := NatToString(-n);
      var s := "-" + digits;
      NatRoundTrip(-n);
      assert s[0] == '-' && !IsDigit(s[0]);
      assert s[1..] == digits;
    } else {
      NatRoundTrip(n);
    }
  }

  /** The printed form of an integer has no underscore. */
  lemma IntToStringHasNoUnderscore(n: int)
    ensures '_' !in IntToString(n)
  {
    var s := IntToString(n);
    forall i | 0 <= i < |s| ensures s[i] != '_' {
      if i > 0 && !AllDigits(s) {
        assert s[i] == s[1..][i - 1];
      }
    }
  }
}
