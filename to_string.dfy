/**
 * Decimal rendering of an `int`, the way `std::to_string(int)` writes it:
 * an optional '-' followed by the digits of the magnitude, without leading
 * zeros. The unknown-value exception builds its message with it.
 */
module StdToString {

  predicate IsDigit(c: char) {
    '0' <= c <= '9'
  }

  predicate AllDigits(s: string) {
    forall i :: 0 <= i < |s| ==> IsDigit(s[i])
  }

  /** The character of one decimal digit. */
  function DigitChar(d: nat): (c: char)
    requires d < 10
    ensures IsDigit(c) && c as int - '0' as int == d
  {
    (d + '0' as int) as char
  }

  /** The numeric value of a string of decimal digits, most significant first. */
  function DecimalValue(s: string): nat
    requires AllDigits(s)
  {
    if s == [] then 0
    else DecimalValue(s[..|s| - 1]) * 10 + (s[|s| - 1] as int - '0' as int)
  }

  /** The digits of a natural number: never empty, all digits, no leading zero. */
  function NatToDecimal(n: nat): (s: string)
    ensures |s| > 0 && AllDigits(s)
    ensures s[0] == '0' ==> n == 0 && s == "0"
    decreases n
  {
    if n < 10 then [DigitChar(n)]
    else NatToDecimal(n / 10) + [DigitChar(n % 10)]
  }

  /** Reading the digits back gives the number that was written. */
  lemma {:induction false} DecimalRoundTrip(n: nat)
    ensures DecimalValue(NatToDecimal(n)) == n
  {
    if n >= 10 {
      var s := NatToDecimal(n / 10);
      var t := s + [DigitChar(n % 10)];
      assert NatToDecimal(n) == t;
      assert t[..|t| - 1] == s;
      DecimalRoundTrip(n / 10);
    }
  }

  /** `std::to_string` on an `int`. */
  function IntToString(i: int): (s: string)
    ensures |s| > 0
    ensures s[0] == '-' <==> i < 0
    ensures i >= 0 ==> AllDigits(s)
    ensures i < 0 ==> AllDigits(s[1..])
    ensures var d := if i < 0 then s[1..] else s; |d| > 0 && (d[0] == '0' ==> d == "0")
  {
    if i < 0 then "-" + NatToDecimal(-i) else NatToDecimal(i)
  }

  /** Distinct integers are written differently. */
  lemma IntToStringInjective(i: int, j: int)
    requires IntToString(i) == IntToString(j)
    ensures i == j
  {
    if i < 0 {
      assert j < 0;
      assert IntToString(i)[1..] == NatToDecimal(-i);
      assert IntToString(j)[1..] == NatToDecimal(-j);
      DecimalRoundTrip(-i);
      DecimalRoundTrip(-j);
    } else {
      assert j >= 0;
      DecimalRoundTrip(i);
      DecimalRoundTrip(j);
    }
  }

  /** The digits of `std::to_string` spell the magnitude of the number. */
  lemma IntToStringValue(i: int)
    ensures DecimalValue(if i < 0 then IntToString(i)[1..] else IntToString(i)) == if i < 0 then -i else i
  {
    if i < 0 {
      assert IntToString(i)[1..] == NatToDecimal(-i);
      DecimalRoundTrip(-i);
    } else {
      DecimalRoundTrip(i);
    }
  }

  /** A rendered integer holds no NUL character. */
  lemma IntToStringHasNoNul(i: int)
    ensures '\0' !in IntToString(i)
  {
    var s := IntToString(i);
    assert forall k :: 0 <= k < |s| ==> s[k] == '-' || IsDigit(s[k]) by {
      if i < 0 {
        forall k | 1 <= k < |s| ensures IsDigit(s[k]) { assert s[1..][k - 1] == s[k]; }
      }
    }
  }
}
