/** The greater of two numbers, and numerals at the front of a text. */
module Numbers {
  import opened Text

  function Max(a: int, b: int): (m: int)
    ensures m >= a && m >= b && m in {a, b}
  {
    if a >= b then a else b
  }

  predicate IsDigit(c: char) {
    '0' <= c <= '9'
  }

  predicate IsNumeral(s: string) {
    s != "" && forall k :: 0 <= k < |s| ==> IsDigit(s[k])
  }

  function Value(s: string): nat {
    if s == "" then 0
    else
      var last := s[|s| - 1];
      10 * Value(s[..|s| - 1]) + if IsDigit(last) then (last - '0') as int else 0
  }

  /** How many digits a text starts with. */
  function DigitCount(s: string): (n: nat)
    ensures n <= |s|
  {
    if s == "" || !IsDigit(s[0]) then 0 else 1 + DigitCount(s[1..])
  }

  /** The longest prefix of digits, and what follows it. */
  function SpanDigits(s: string): (string, string) {
    (s[..DigitCount(s)], s[DigitCount(s)..])
  }

  lemma {:induction false} DigitsCounted(s: string)
    ensures forall k :: 0 <= k < DigitCount(s) ==> IsDigit(s[k])
    ensures DigitCount(s) < |s| ==> !IsDigit(s[DigitCount(s)])
  {
    if s != "" && IsDigit(s[0]) {
      DigitsCounted(s[1..]);
      assert forall k :: 1 <= k < DigitCount(s) ==> s[k] == s[1..][k - 1];
    }
  }

  lemma SpanMeaning(s: string)
    ensures s == SpanDigits(s).0 + SpanDigits(s).1
    ensures SpanDigits(s).0 != "" ==> IsNumeral(SpanDigits(s).0)
  {
    DigitsCounted(s);
  }

  lemma {:induction false} SpanDigitsOfNumeral(digits: string, rest: string)
    requires forall k :: 0 <= k < |digits| ==> IsDigit(digits[k])
    requires rest != "" ==> !IsDigit(rest[0])
    ensures SpanDigits(digits + rest) == (digits, rest)
  {
    var s := digits + rest;
    if digits != "" {
      SpanDigitsOfNumeral(digits[1..], rest);
      assert s[1..] == digits[1..] + rest;
      assert DigitCount(s[1..]) == |SpanDigits(s[1..]).0|;
    }
    assert DigitCount(s) == |digits|;
  }

  lemma OneDigit(c: char)
    requires IsDigit(c)
    ensures Value([c]) == (c - '0') as int
  {
    assert Value([c][..0]) == 0;
  }

  const DIGITS := "0123456789"

  /** A number written in decimal, by repeated division. */
  function Decimal(n: nat): string {
    if n < 10 then [DIGITS[n]] else Decimal(n / 10) + [DIGITS[n % 10]]
  }

  /** The same with leading zeros. */
  function Numeral(zeros: nat, n: nat): string {
    Repeat('0', zeros) + Decimal(n)
  }

  lemma DigitOf(d: nat)
    requires d < 10
    ensures IsDigit(DIGITS[d]) && (DIGITS[d] - '0') as int == d
  {
  }

  lemma {:induction false} ValueOfZeros(zeros: nat)
    ensures Value(Repeat('0', zeros)) == 0
  {
    if zeros > 0 {
      ValueOfZeros(zeros - 1);
      assert Repeat('0', zeros)[..zeros - 1] == Repeat('0', zeros - 1);
    }
  }

  /** A text of digits means the number it is the decimal writing of, leading zeros or not. */
  lemma {:induction false} ValueOfNumeral(zeros: nat, n: nat)
    ensures IsNumeral(Numeral(zeros, n)) && Value(Numeral(zeros, n)) == n
    decreases n
  {
    var s := Numeral(zeros, n);
    var last := |s| - 1;
    DigitOf(n % 10);
    if n < 10 {
      assert s[..last] == Repeat('0', zeros);
      ValueOfZeros(zeros);
    } else {
      ValueOfNumeral(zeros, n / 10);
      assert s[..last] == Numeral(zeros, n / 10);
    }
    assert s[last] == DIGITS[n % 10];
  }
}
