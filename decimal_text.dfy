/**
 * Decimal text as the command loop reads and writes it: `s.isdigit()`
 * followed by `int(s)` for the index and step prompts, and `str(n)` for the
 * step count in a gradient's export file name.
 */
module DecimalText {

  predicate IsAsciiDigit(c: char)
  {
    '0' <= c <= '9'
  }

  predicate AllAsciiDigits(s: string)
  {
    forall i :: 0 <= i < |s| ==> IsAsciiDigit(s[i])
  }

  /** `s.isdigit()`: a non-empty string of digits. */
  predicate IsDigits(s: string)
  {
    |s| > 0 && AllAsciiDigits(s)
  }

  function Pow10(k: nat): (p: nat)
    ensures p >= 1
  {
    if k == 0 then 1 else 10 * Pow10(k - 1)
  }

  /** `int(s)` on a string of digits; leading zeros are allowed. */
  function ParseDecimal(s: string): (n: nat)
    requires AllAsciiDigits(s)
    ensures n < Pow10(|s|)
  {
    if s == [] then 0
    else ParseDecimal(s[..|s| - 1]) * 10 + (s[|s| - 1] as int - '0' as int)
  }

  /** `str(n)` for a non-negative integer: no sign and no leading zero. */
  function DecimalString(n: nat): (s: string)
    ensures IsDigits(s)
    ensures ParseDecimal(s) == n
    ensures |s| > 1 ==> s[0] != '0'
    decreases n
  {
    var d := ('0' as int + n % 10) as char;
    if n < 10 then [d]
    else
      var prefix := DecimalString(n / 10);
      var s := prefix + [d];
      assert s[..|s| - 1] == prefix;
      s
  }

  /** A string of digits without a leading zero is `str` of its value. */
  lemma {:induction false} DecimalStringOfParse(s: string)
    requires IsDigits(s) && (|s| > 1 ==> s[0] != '0')
    ensures DecimalString(ParseDecimal(s)) == s
    decreases |s|
  {
    var n := ParseDecimal(s);
    var p := s[..|s| - 1];
    var d := s[|s| - 1] as int - '0' as int;
    if |s| == 1 {
      assert n == d;
    } else {
      var q := ParseDecimal(p);
      assert q >= 1 by {
        if q == 0 { LeadingZero(p); }
      }
      DecimalStringOfParse(p);
      assert n == q * 10 + d;
      assert n / 10 == q && n % 10 == d;
      assert DecimalString(n) == DecimalString(q) + [('0' as int + d) as char];
    }
  }

  /** Digits that parse to zero are all zeros. */
  lemma {:induction false} LeadingZero(s: string)
    requires IsDigits(s) && ParseDecimal(s) == 0
    ensures s[0] == '0'
    decreases |s|
  {
    if |s| > 1 {
      var p := s[..|s| - 1];
      assert ParseDecimal(p) == 0;
      LeadingZero(p);
    }
  }
}
