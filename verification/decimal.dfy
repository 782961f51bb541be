/** Decimal printing and parsing: fmt's %d, strconv.Itoa and strconv.ParseInt(s, 10, 64). */
module Decimal {
  import opened Wrappers

  const TWO_63: int := 0x8000_0000_0000_0000

  type Int64 = n: int | -TWO_63 <= n < TWO_63

  function DigitChar(d: int): (c: char)
    requires 0 <= d < 10
    ensures '0' <= c <= '9'
  {
    ('0' as int + d) as char
  }

  /** The digits of a natural number, without leading zeros. */
  function Digits(n: nat): (s: string)
    ensures s != [] && forall i :: 0 <= i < |s| ==> '0' <= s[i] <= '9'
  {
    if n < 10 then [DigitChar(n)] else Digits(n / 10) + [DigitChar(n % 10)]
  }

  function Print(n: int): (s: string)
    ensures s != [] && forall i :: 0 <= i < |s| ==> s[i] == '-' || '0' <= s[i] <= '9'
  {
    if n < 0 then "-" + Digits(-n) else Digits(n)
  }

  /** The value of a digit string; None for an empty string or any other character. */
  function ParseDigits(s: string): Option<int> {
    if s == [] || !('0' <= s[|s| - 1] <= '9') then None
    else
      var d := s[|s| - 1] as int - '0' as int;
      if |s| == 1 then Some(d)
      else
        match ParseDigits(s[..|s| - 1])
        case None => None
        case Some(n) => Some(n * 10 + d)
  }

  /** One optional sign, then digits; out of range is an error. */
  function ParseInt64(s: string): (r: Option<Int64>) {
    var neg := s != [] && s[0] == '-';
    var digits := if s != [] && (s[0] == '-' || s[0] == '+') then s[1..] else s;
    match ParseDigits(digits)
    case None => None
    case Some(n) =>
      var v: int := if neg then -n else n;
      if -TWO_63 <= v < TWO_63 then Some(v) else None
  }

  lemma {:induction false} DigitsRoundTrip(n: nat)
    ensures ParseDigits(Digits(n)) == Some(n)
  {
    if n >= 10 {
      DigitsRoundTrip(n / 10);
      assert Digits(n)[..|Digits(n)| - 1] == Digits(n / 10);
    }
  }

  /** Parsing undoes printing on the whole 64-bit range, and only there. */
  lemma PrintParse(n: int)
    ensures ParseInt64(Print(n)) == if -TWO_63 <= n < TWO_63 then Some(n) else None
  {
    DigitsRoundTrip(if n < 0 then -n else n);
    if n < 0 {
      assert Print(n)[1..] == Digits(-n);
    }
  }

  lemma PrintInjective(m: int, n: int)
    requires Print(m) == Print(n)
    ensures m == n
  {
    DigitsRoundTrip(if m < 0 then -m else m);
    DigitsRoundTrip(if n < 0 then -n else n);
    assert m < 0 ==> Print(m)[0] == '-' && Print(m)[1..] == Digits(-m);
    assert n < 0 ==> Print(n)[0] == '-' && Print(n)[1..] == Digits(-n);
  }

  /** Printing is positional, with the usual digits, no leading zeros, and a minus sign in front. */
  lemma PrintExact(n: nat, d: int)
    requires 0 <= d < 10
    ensures Print(n * 10 + d) == (if n == 0 then "" else Print(n)) + ["0123456789"[d]]
    ensures n > 0 ==> Print(0 - n) == "-" + Print(n)
  {
    assert (n * 10 + d) / 10 == n && (n * 10 + d) % 10 == d;
  }

  /** Parsing takes an optional plus sign, and any number of leading zeros. */
  lemma ParseExact(s: string)
    requires s != "" && '0' <= s[0] <= '9'
    ensures ParseInt64("+" + s) == ParseInt64(s) && ParseInt64("0" + s) == ParseInt64(s)
  {
    assert ("+" + s)[1..] == s;
    LeadingZero(s);
  }

  /** But no bare sign, no blank, and nothing that is not a digit. */
  lemma ParseRefuses()
    ensures ParseInt64("").None? && ParseInt64("-").None? && ParseInt64(" 1").None? && ParseInt64("1x").None?
  {
    assert " 1"[..1] == " ";
  }

  lemma {:induction false} LeadingZero(s: string)
    requires s != ""
    ensures ParseDigits("0" + s) == ParseDigits(s)
  {
    assert ("0" + s)[..|s|] == "0" + s[..|s| - 1];
    if |s| > 1 {
      LeadingZero(s[..|s| - 1]);
    } else {
      assert ParseDigits("0") == Some(0);
      assert ("0" + s)[..1] == "0";
    }
  }
}
