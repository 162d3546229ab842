/** Decimal formatting and parsing and the few string helpers the source relies on. */
module Text {

  predicate IsDigit(c: char)
  {
    '0' <= c <= '9'
  }

  predicate AllDigits(s: string)
  {
    forall i :: 0 <= i < |s| ==> IsDigit(s[i])
  }

  function DigitChar(d: nat): (c: char)
    requires d < 10
    ensures IsDigit(c) && c as int - '0' as int == d
  {
    (d + '0' as int) as char
  }

  /** The value of a string of decimal digits, most significant digit first. */
  function ParseDecimal(s: string): nat
    requires AllDigits(s)
  {
    if s == [] then 0
    else ParseDecimal(s[..|s| - 1]) * 10 + (s[|s| - 1] as int - '0' as int)
  }

  /** The shortest decimal representation of `n` (Python `str` / JavaScript `String` on a non-negative integer). */
  function NatToDecimal(n: nat): (s: string)
    ensures |s| >= 1 && AllDigits(s)
    ensures ParseDecimal(s) == n
    ensures |s| > 1 ==> s[0] != '0'
    decreases n
  {
    if n < 10 then [DigitChar(n)]
    else
      var prefix := NatToDecimal(n / 10);
      var s := prefix + [DigitChar(n % 10)];
      assert s[..|s| - 1] == prefix;
      s
  }

  /** The decimal representation of an integer, with a leading '-' for negative values. */
  function IntToString(i: int): (s: string)
    ensures |s| >= 1
    ensures i >= 0 ==> AllDigits(s) && ParseDecimal(s) == i
    ensures i < 0 ==> s[0] == '-' && AllDigits(s[1..]) && ParseDecimal(s[1..]) == -i
  {
    if i < 0 then "-" + NatToDecimal(-i) else NatToDecimal(i)
  }

  /** Different integers have different decimal representations. */
  lemma IntToStringInjective(i: int, j: int)
    requires IntToString(i) == IntToString(j)
    ensures i == j
  {
  }

  /** The decimal representation of an integer never holds '_'. */
  lemma IntToStringHasNoUnderscore(i: int, k: int)
    requires 0 <= k < |IntToString(i)|
    ensures IntToString(i)[k] != '_'
  {
    if i < 0 && k > 0 {
      assert IntToString(i)[k] == IntToString(i)[1..][k - 1];
    }
  }

  /** `s` preceded by as many '0' characters as it takes to reach `width`. */
  function ZeroPad(s: string, width: nat): (r: string)
    ensures |r| == if |s| >= width then |s| else width
    ensures r[|r| - |s|..] == s
    ensures forall i :: 0 <= i < |r| - |s| ==> r[i] == '0'
  {
    if |s| >= width then s else seq(width - |s|, _ => '0') + s
  }

  /** Python's format specification `05d`: the sign counts toward the width of five. */
  function Format05d(n: int): string
  {
    if n < 0 then "-" + ZeroPad(NatToDecimal(-n), 4) else ZeroPad(NatToDecimal(n), 5)
  }

  /** Leading zeros do not change the value of a digit string. */
  lemma {:induction false} ParseIgnoresLeadingZeros(z: string, s: string)
    requires AllDigits(s)
    requires forall i :: 0 <= i < |z| ==> z[i] == '0'
    ensures AllDigits(z + s)
    ensures ParseDecimal(z + s) == ParseDecimal(s)
    decreases |s|
  {
    if s == [] {
      assert z + s == z;
      ParseZeros(z);
    } else {
      var t := z + s;
      assert t[..|t| - 1] == z + s[..|s| - 1];
      ParseIgnoresLeadingZeros(z, s[..|s| - 1]);
    }
  }

  lemma {:induction false} ParseZeros(z: string)
    requires forall i :: 0 <= i < |z| ==> z[i] == '0'
    ensures AllDigits(z) && ParseDecimal(z) == 0
  {
    if z != [] {
      ParseZeros(z[..|z| - 1]);
    }
  }

  /**
   * Every frame index below 100000 becomes exactly five digits, and those
   * digits read back as the index: the zero-padded names are unambiguous.
   */
  lemma Format05dRoundTrip(n: int)
    requires 0 <= n < 100000
    ensures |Format05d(n)| == 5 && AllDigits(Format05d(n))
    ensures ParseDecimal(Format05d(n)) == n
  {
    var d := NatToDecimal(n);
    NatToDecimalLength(n);
    var r := Format05d(n);
    assert r == seq(5 - |d|, _ => '0') + d;
    ParseIgnoresLeadingZeros(seq(5 - |d|, _ => '0'), d);
  }

  /** A number below 10^k has at most k digits. */
  lemma {:induction false} NatToDecimalLength(n: nat)
    ensures n < 100000 ==> |NatToDecimal(n)| <= 5
    ensures n < 10000 ==> |NatToDecimal(n)| <= 4
    ensures n < 1000 ==> |NatToDecimal(n)| <= 3
    ensures n < 100 ==> |NatToDecimal(n)| <= 2
    ensures n >= 10 ==> |NatToDecimal(n)| > 1
    ensures n >= 100 ==> |NatToDecimal(n)| > 2
    ensures n >= 1000 ==> |NatToDecimal(n)| > 3
    ensures n >= 10000 ==> |NatToDecimal(n)| > 4
    ensures n >= 100000 ==> |NatToDecimal(n)| > 5
    decreases n
  {
    if n >= 10 {
      NatToDecimalLength(n / 10);
    }
  }

  function ToLowerChar(c: char): char
  {
    if 'A' <= c <= 'Z' then (c as int - 'A' as int + 'a' as int) as char else c
  }

  /** ASCII lower-casing (`str.lower`, `String.toLowerCase` on ASCII text). */
  function ToLower(s: string): (r: string)
    ensures |r| == |s|
    ensures forall i :: 0 <= i < |s| ==> r[i] == ToLowerChar(s[i])
  {
    seq(|s|, i requires 0 <= i < |s| => ToLowerChar(s[i]))
  }

  /** `s.startswith(prefix)` */
  predicate StartsWith(s: string, prefix: string)
  {
    |prefix| <= |s| && s[..|prefix|] == prefix
  }
}
