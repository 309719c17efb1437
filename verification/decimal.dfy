/** Decimal rendering of integers, as Python's `str(int)` writes them inside the
    validator's f-string messages, together with its inverse. */
module Decimal {
  import opened Wrappers

  predicate IsDigit(c: char) {
    '0' <= c <= '9'
  }

  predicate AllDigits(s: string) {
    forall i :: 0 <= i < |s| ==> IsDigit(s[i])
  }

  function DigitValue(c: char): (d: nat)
    requires IsDigit(c)
    ensures d < 10
  {
    c as int - '0' as int
  }

  function DigitChar(d: nat): (c: char)
    requires d < 10
    ensures IsDigit(c) && DigitValue(c) == d
  {
    ('0' as int + d) as char
  }

  /** The digits of `n`, most significant first, with no leading zero. */
  function NatDigits(n: nat): (s: string)
    ensures 1 <= |s|
    ensures AllDigits(s)
    ensures n < 10 <==> |s| == 1
    decreases n
  {
    if n < 10 then [DigitChar(n)] else NatDigits(n / 10) + [DigitChar(n % 10)]
  }

  /** `str(n)`: a minus sign for negative numbers, then the digits of the magnitude. */
  function Show(n: int): (s: string)
    ensures 1 <= |s|
    ensures s[0] == '-' <==> n < 0
    ensures n >= 0 ==> AllDigits(s)
  {
    if n < 0 then "-" + NatDigits(-n) else NatDigits(n)
  }

  /** The value of a string of digits read in base ten. */
  function DigitsValue(s: string): nat
    requires AllDigits(s)
    decreases |s|
  {
    if |s| == 0 then 0 else 10 * DigitsValue(s[..|s| - 1]) + DigitValue(s[|s| - 1])
  }

  /** `int(s)` restricted to an optional minus sign followed by digits. */
  function Parse(s: string): Option<int> {
    if 2 <= |s| && s[0] == '-' && AllDigits(s[1..]) then Some(0 - DigitsValue(s[1..]) as int)
    else if 1 <= |s| && AllDigits(s) then Some(DigitsValue(s))
    else None
  }

  lemma {:induction false} DigitsValueOfNatDigits(n: nat)
    ensures DigitsValue(NatDigits(n)) == n
    decreases n
  {
    if n >= 10 {
      var s := NatDigits(n);
      assert s[..|s| - 1] == NatDigits(n / 10);
      DigitsValueOfNatDigits(n / 10);
    }
  }

  /** Reading back what `Show` writes gives the number again. */
  lemma ParseShow(n: int)
    ensures Parse(Show(n)) == Some(n)
  {
    var s := Show(n);
    if n < 0 {
      var d := NatDigits(-n);
      assert s == "-" + d;
      assert s[1..] == d;
      assert Parse(s) == Some(0 - DigitsValue(d) as int);
      DigitsValueOfNatDigits(-n);
    } else {
      assert s == NatDigits(n);
      DigitsValueOfNatDigits(n);
    }
  }

  /** The digits of a number start with a zero only for zero itself. */
  lemma {:induction false} NatDigitsNoLeadingZero(n: nat)
    ensures NatDigits(n)[0] == '0' ==> n == 0
    decreases n
  {
    if n >= 10 {
      NatDigitsNoLeadingZero(n / 10);
      assert NatDigits(n)[0] == NatDigits(n / 10)[0];
    }
  }

  /** `Show` writes the canonical text `str(int)` writes: zero is "0", and no
      other number has a leading zero after its optional minus sign. With
      `ParseShow` this makes it the only such text that reads back as `n`. */
  lemma ShowCanonical(n: int)
    ensures n == 0 <==> Show(n) == "0"
    ensures n < 0 ==> 2 <= |Show(n)| && Show(n)[1] != '0'
    ensures n > 0 ==> Show(n)[0] != '0'
  {
    if n < 0 {
      NatDigitsNoLeadingZero(-n);
      assert Show(n)[1] == NatDigits(-n)[0];
    } else {
      NatDigitsNoLeadingZero(n);
    }
  }

  /** Two different numbers never render to the same text. */
  lemma ShowInjective(a: int, b: int)
    ensures Show(a) == Show(b) ==> a == b
  {
    ParseShow(a);
    ParseShow(b);
  }
}
