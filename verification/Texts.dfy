/** Text helpers shared by the components: decimal numerals and character classes. */
module Texts {

  datatype Option<+T> = None | Some(value: T)

  predicate IsDigit(c: char) { '0' <= c <= '9' }

  predicate AllDigits(s: string) { forall i :: 0 <= i < |s| ==> IsDigit(s[i]) }

  function DigitChar(d: nat): (c: char)
    requires d < 10
    ensures IsDigit(c) && DigitOf(c) == d
  {
    ('0' as int + d) as char
  }

  function DigitOf(c: char): nat
    requires IsDigit(c)
  {
    c as int - '0' as int
  }

  const DIGITS := "0123456789"

  lemma {:induction false} DigitsAre(d: nat)
    requires d < 10
    ensures DigitChar(d) == DIGITS[d] && DigitOf(DIGITS[d]) == d
  {
  }

  /** The decimal text of a natural number, without leading zeros. */
  function Decimal(n: nat): (s: string)
    ensures |s| > 0 && AllDigits(s)
    ensures s[0] == '0' <==> n == 0
  {
    if n < 10 then [DigitChar(n)] else Decimal(n / 10) + [DigitChar(n % 10)]
  }

  /** The number a run of digits denotes. */
  function DigitsValue(s: string): nat
    requires AllDigits(s)
  {
    if s == "" then 0 else DigitsValue(s[..|s| - 1]) * 10 + DigitOf(s[|s| - 1])
  }

  lemma {:induction false} DecimalRoundTrip(n: nat)
    ensures DigitsValue(Decimal(n)) == n
  {
    if n < 10 {
    } else {
      DecimalRoundTrip(n / 10);
      var s := Decimal(n);
      assert s[..|s| - 1] == Decimal(n / 10);
    }
  }

  /** The text `toString` gives for a bigint. */
  function IntText(i: int): string {
    if i < 0 then "-" + Decimal(-i) else Decimal(i)
  }

  /** `BigInt(text)` on decimal texts; `None` stands for the SyntaxError. The empty text is 0n. */
  function ParseInt(s: string): Option<int> {
    if s == "" then Some(0)
    else if s[0] == '-' || s[0] == '+' then
      if |s| > 1 && AllDigits(s[1..]) then
        var n: int := DigitsValue(s[1..]);
        Some(if s[0] == '-' then -n else n)
      else None
    else if AllDigits(s) then Some(DigitsValue(s)) else None
  }

  lemma {:induction false} IntRoundTrip(i: int)
    ensures ParseInt(IntText(i)) == Some(i)
  {
    hide Decimal, DigitsValue;
    if i < 0 {
      DecimalRoundTrip(-i);
      assert IntText(i)[1..] == Decimal(-i);
    } else {
      DecimalRoundTrip(i);
    }
  }

  /** Which texts a bigint is read from: digits with an optional sign, and the empty text. */
  lemma {:induction false} IntTexts(digits: string, other: string)
    requires digits != "" && AllDigits(digits)
    requires other != "" && other[0] !in "+-" && !AllDigits(other)
    ensures ParseInt("") == Some(0) && ParseInt("+") == ParseInt("-") == ParseInt(other) == None
    ensures ParseInt(digits) == ParseInt("+" + digits) == Some(DigitsValue(digits))
    ensures var n: int := DigitsValue(digits); ParseInt("-" + digits) == Some(-n)
  {
    assert ("+" + digits)[1..] == digits == ("-" + digits)[1..];
    assert digits[0] != '+' && digits[0] != '-';
  }
}
