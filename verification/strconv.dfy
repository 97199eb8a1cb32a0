/**
 * Decimal conversions of Go's `strconv` package as the pipeline uses them:
 * `Atoi` with its error ignored (so a failed parse reads as 0) and `Itoa`.
 */
module Strconv {
  import opened Wrappers

  /** `\d` and the digits `strconv` accepts: ASCII '0' to '9' only. */
  predicate IsDigit(c: char) {
    '0' <= c <= '9'
  }

  predicate AllDigits(s: string) {
    forall k :: 0 <= k < |s| ==> IsDigit(s[k])
  }

  function DigitValue(c: char): (d: nat)
    requires IsDigit(c)
    ensures d < 10
  {
    c as int - '0' as int
  }

  function DigitChar(d: nat): (c: char)
    requires d < 10
    ensures IsDigit(c) && DigitValue(c) == d
  {
    ('0' as int + d) as char
  }

  /** The value of a string of decimal digits, most significant first. */
  function DigitsValue(s: string): nat
    requires AllDigits(s)
    decreases |s|
  {
    if s == [] then 0 else DigitsValue(s[..|s| - 1]) * 10 + DigitValue(s[|s| - 1])
  }

  /** The text `strconv.Atoi` accepts: an optional '+' or '-', then at least one ASCII digit. */
  predicate IsIntText(s: string) {
    || (s != [] && AllDigits(s))
    || (|s| >= 2 && (s[0] == '+' || s[0] == '-') && AllDigits(s[1..]))
  }

  /**
   * The successful parses of `strconv.Atoi`: the signed value of the digits.
   * Everything else is a syntax error (None).
   */
  function ParseInt(s: string): (r: Option<int>)
    ensures r.Some? <==> IsIntText(s)
    ensures AllDigits(s) && s != [] ==> r == Some(DigitsValue(s))
    ensures |s| >= 2 && s[0] == '+' && AllDigits(s[1..]) ==> r == Some(DigitsValue(s[1..]))
    ensures |s| >= 2 && s[0] == '-' && AllDigits(s[1..]) ==> r == Some(-(DigitsValue(s[1..]) as int))
  {
    if s == [] then None
    else if s[0] == '+' || s[0] == '-' then
      var digits := s[1..];
      if digits != [] && AllDigits(digits) then
        var magnitude: int := DigitsValue(digits);
        Some(if s[0] == '-' then -magnitude else magnitude)
      else None
    else if AllDigits(s) then Some(DigitsValue(s))
    else None
  }

  /** `n, _ := strconv.Atoi(s)`: the parsed value, or 0 when the parse fails. */
  function Atoi(s: string): (n: int)
    ensures !IsIntText(s) ==> n == 0
    ensures s != [] && AllDigits(s) ==> n == DigitsValue(s)
    ensures |s| >= 2 && s[0] == '+' && AllDigits(s[1..]) ==> n == DigitsValue(s[1..])
    ensures |s| >= 2 && s[0] == '-' && AllDigits(s[1..]) ==> n == -(DigitsValue(s[1..]) as int)
    ensures n < 0 ==> s != [] && s[0] == '-'
  {
    ParseInt(s).GetOr(0)
  }

  /** The canonical decimal digits of a natural number. */
  function NatToDecimal(n: nat): (r: string)
    ensures r != [] && AllDigits(r)
    ensures DigitsValue(r) == n
    ensures |r| > 1 ==> r[0] != '0'
    decreases n
  {
    if n < 10 then [DigitChar(n)]
    else
      var prefix := NatToDecimal(n / 10);
      var r := prefix + [DigitChar(n % 10)];
      assert r[..|r| - 1] == prefix;
      r
  }

  /** Digits with no leading zero, except for the number 0 itself. */
  predicate IsCanonicalDigits(s: string) {
    s != [] && AllDigits(s) && (|s| == 1 || s[0] != '0')
  }

  /** The text `strconv.Itoa` produces: canonical digits, after a '-' only when the number is negative. */
  predicate IsCanonicalInt(s: string) {
    || IsCanonicalDigits(s)
    || (|s| >= 2 && s[0] == '-' && IsCanonicalDigits(s[1..]) && s[1] != '0')
  }

  /** `strconv.Itoa`: decimal text, with a leading '-' for negative numbers. */
  function Itoa(n: int): (r: string)
    ensures ParseInt(r) == Some(n)
    ensures IsCanonicalInt(r)
    ensures r[0] == '-' <==> n < 0
  {
    if n < 0 then
      var digits := NatToDecimal(-n);
      assert |digits| == 1 ==> DigitsValue(digits) == DigitValue(digits[0]) by {
        if |digits| == 1 {
          assert digits[..0] == [];
        }
      }
      var r := "-" + digits;
      assert r[1..] == digits;
      r
    else NatToDecimal(n)
  }

  /** A non-empty digit string is worth at least its leading digit. */
  lemma {:induction false} LeadingDigitBound(s: string)
    requires s != [] && AllDigits(s)
    ensures DigitsValue(s) >= DigitValue(s[0])
    decreases |s|
  {
    if |s| > 1 {
      var p := s[..|s| - 1];
      assert p[0] == s[0];
      LeadingDigitBound(p);
    } else {
      assert s[..0] == [];
    }
  }

  /** Canonical digits are the decimal text of their own value. */
  lemma {:induction false} DecimalOfDigits(s: string)
    requires IsCanonicalDigits(s)
    ensures NatToDecimal(DigitsValue(s)) == s
    decreases |s|
  {
    var last := s[|s| - 1];
    if |s| == 1 {
      assert s[..0] == [];
      assert DigitChar(DigitValue(last)) == last;
      assert s == [last];
    } else {
      var p := s[..|s| - 1];
      assert p[0] == s[0];
      LeadingDigitBound(p);
      assert DigitValue(p[0]) >= 1;
      DecimalOfDigits(p);
      var v := DigitsValue(s);
      assert v / 10 == DigitsValue(p) && v % 10 == DigitValue(last);
      assert DigitChar(DigitValue(last)) == last;
      assert s == p + [last];
    }
  }

  /** Canonical text after a '-' is `Itoa` of its negated value. */
  lemma {:induction false} ItoaOfNegative(digits: string)
    requires IsCanonicalDigits(digits) && digits[0] != '0'
    ensures Itoa(-(DigitsValue(digits) as int)) == "-" + digits
  {
    DecimalOfDigits(digits);
    LeadingDigitBound(digits);
  }

  /** `Itoa` after `Atoi` gives back exactly the canonical texts: `Itoa` output is the only spelling it reads back from. */
  lemma {:induction false} ItoaOfAtoi(s: string)
    requires IsCanonicalInt(s)
    ensures Itoa(Atoi(s)) == s
  {
    if IsCanonicalDigits(s) {
      DecimalOfDigits(s);
    } else {
      ItoaOfNegative(s[1..]);
      assert s == "-" + s[1..];
    }
  }
}
