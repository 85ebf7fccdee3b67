/** Decimal rendering of non-negative integers, as Python's `str(n)` and
    f-string interpolation `f"{n}"` produce it (page labels and image file
    names in jsonCreator/main.py:41 and :70), with its inverse. */
module Decimal {

  predicate IsDigit(c: char) {
    '0' <= c <= '9'
  }

  function DigitChar(d: nat): (c: char)
    requires d < 10
    ensures IsDigit(c)
  {
    ('0' as int + d) as char
  }

  function DigitValue(c: char): (d: nat)
    requires IsDigit(c)
    ensures d < 10 && DigitChar(d) == c
  {
    c as int - '0' as int
  }

  /** A numeral as `str` writes it: digits only, no leading zero unless the
      numeral is `0` itself. */
  predicate IsCanonical(s: string) {
    && |s| > 0
    && (forall i :: 0 <= i < |s| ==> IsDigit(s[i]))
    && (|s| > 1 ==> s[0] != '0')
  }

  /** `str(n)` for `n >= 0`. */
  function NatToString(n: nat): (s: string)
    ensures IsCanonical(s)
    ensures n < 10 <==> |s| == 1
  {
    if n < 10 then [DigitChar(n)]
    else
      var p := NatToString(n / 10);
      assert p[0] != '0' by {
        if |p| == 1 {
          assert p[0] == DigitChar(n / 10);
        }
      }
      p + [DigitChar(n % 10)]
  }

  /** `int(s)` on a string of decimal digits. */
  function ParseDecimal(s: string): nat
    requires forall i :: 0 <= i < |s| ==> IsDigit(s[i])
  {
    if |s| == 0 then 0
    else ParseDecimal(s[..|s| - 1]) * 10 + DigitValue(s[|s| - 1])
  }

  /** `int(str(n)) == n`. */
  lemma {:induction false} ParseNatToString(n: nat)
    ensures ParseDecimal(NatToString(n)) == n
  {
    if n >= 10 {
      var s := NatToString(n);
      ParseNatToString(n / 10);
      assert s[..|s| - 1] == NatToString(n / 10);
    } else {
      assert NatToString(n)[..0] == "";
    }
  }

  lemma {:induction false} LeadingNonZeroIsPositive(s: string)
    requires |s| > 0 && s[0] != '0'
    requires forall i :: 0 <= i < |s| ==> IsDigit(s[i])
    ensures ParseDecimal(s) > 0
  {
    var p := s[..|s| - 1];
    if |p| == 0 {
      assert DigitValue(s[0]) > 0;
    } else {
      LeadingNonZeroIsPositive(p);
    }
  }

  /** `str(int(s)) == s` for every canonical numeral. */
  lemma {:induction false} NatToStringParse(s: string)
    requires IsCanonical(s)
    ensures NatToString(ParseDecimal(s)) == s
    decreases |s|
  {
    var p := s[..|s| - 1];
    if |s| == 1 {
      assert ParseDecimal(p) == 0;
    } else {
      assert IsCanonical(p) by {
        assert p[0] == s[0];
      }
      LeadingNonZeroIsPositive(p);
      NatToStringParse(p);
      assert s == p + [s[|s| - 1]];
    }
  }

  /** Distinct numbers render as distinct numerals. */
  lemma NatToStringInjective(a: nat, b: nat)
    requires NatToString(a) == NatToString(b)
    ensures a == b
  {
    ParseNatToString(a);
    ParseNatToString(b);
  }
}
