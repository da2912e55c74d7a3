/** Decimal rendering of a C `int` as `sprintf("%d")` writes it, and the
    parser that reads such a rendering back. */
module Decimal {
  import opened Wrappers
  import opened MachineInt

  predicate IsDigit(c: char) {
    '0' <= c <= '9'
  }

  predicate AllDigits(s: string) {
    forall i :: 0 <= i < |s| ==> IsDigit(s[i])
  }

  function DigitChar(d: nat): (c: char)
    requires d < 10
    ensures IsDigit(c)
  {
    ['0', '1', '2', '3', '4', '5', '6', '7', '8', '9'][d]
  }

  function DigitValue(c: char): (d: nat)
    requires IsDigit(c)
    ensures d < 10
  {
    (c as int) - ('0' as int)
  }

  lemma DigitValueOfChar(d: nat)
    requires d < 10
    ensures DigitValue(DigitChar(d)) == d
  {
  }

  /** The digits of `n`, most significant first, without leading zeros. */
  function Digits(n: nat): (s: string)
    ensures |s| >= 1 && AllDigits(s)
    ensures n >= 10 ==> s[0] != '0'
    decreases n
  {
    if n < 10 then [DigitChar(n)] else Digits(n / 10) + [DigitChar(n % 10)]
  }

  /** What `%d` prints: a minus sign for negative values, then the digits. */
  function Show(i: int): string {
    if i < 0 then "-" + Digits(-i) else Digits(i)
  }

  /** The value of a non-empty digit string. */
  function DigitsValue(s: string): nat
    requires |s| >= 1 && AllDigits(s)
    decreases |s|
  {
    if |s| == 1 then DigitValue(s[0])
    else DigitsValue(s[..|s| - 1]) * 10 + DigitValue(s[|s| - 1])
  }

  /** Reads an optionally signed decimal integer; `None` for anything else. */
  function Parse(s: string): Option<int> {
    if |s| >= 2 && s[0] == '-' && AllDigits(s[1..]) then Some(0 - DigitsValue(s[1..]) as int)
    else if |s| >= 1 && AllDigits(s) then Some(DigitsValue(s))
    else None
  }

  lemma {:induction false} DigitsRoundTrip(n: nat)
    ensures DigitsValue(Digits(n)) == n
    decreases n
  {
    if n < 10 {
      DigitValueOfChar(n);
    } else {
      var s := Digits(n);
      assert s[..|s| - 1] == Digits(n / 10);
      DigitsRoundTrip(n / 10);
      DigitValueOfChar(n % 10);
    }
  }

  /** Reading back what `%d` printed gives the printed value. */
  lemma ParseShow(i: int)
    ensures Parse(Show(i)) == Some(i)
  {
    var s := Show(i);
    if i < 0 {
      assert s[1..] == Digits(-i);
      DigitsRoundTrip(-i);
    } else {
      assert IsDigit(s[0]) && s[0] != '-';
      DigitsRoundTrip(i);
    }
  }

  /** A value below 10^k needs at most k digits. */
  lemma {:induction false} DigitsLength(n: nat, k: nat, bound: nat)
    requires k >= 1 && bound == Pow10(k) && n < bound
    ensures |Digits(n)| <= k
    decreases k
  {
    if n >= 10 {
      DigitsLength(n / 10, k - 1, Pow10(k - 1));
    }
  }

  function Pow10(k: nat): (p: nat)
    ensures p >= 1
  {
    if k == 0 then 1 else 10 * Pow10(k - 1)
  }

  /** A 32-bit `int` prints in at most eleven characters ("-2147483648"). */
  lemma ShowInt32Length(i: int32)
    ensures |Show(i)| <= 11
  {
    assert Pow10(10) == 10_000_000_000;
    if i < 0 {
      DigitsLength(-(i as int), 10, Pow10(10));
    } else {
      DigitsLength(i, 10, Pow10(10));
    }
  }
}
