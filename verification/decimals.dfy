/** Decimal text of integers, as %d prints it and as Atoi reads it back. */
module Decimals {

  predicate IsDigit(c: char) {
    '0' <= c <= '9'
  }

  predicate AllDigits(s: string) {
    forall i :: 0 <= i < |s| ==> IsDigit(s[i])
  }

  function Digits(n: nat): (s: string)
    ensures s != [] && AllDigits(s)
  {
    var last := [('0' as int + n % 10) as char];
    if n < 10 then last else Digits(n / 10) + last
  }

  function DigitsValue(s: string): nat
    requires AllDigits(s)
  {
    if s == [] then 0 else DigitsValue(s[..|s| - 1]) * 10 + (s[|s| - 1] as int - '0' as int)
  }

  lemma {:induction false} ValueOfDigits(n: nat)
    ensures DigitsValue(Digits(n)) == n
  {
    var s := Digits(n);
    if n >= 10 {
      ValueOfDigits(n / 10);
      assert s[..|s| - 1] == Digits(n / 10);
    }
  }

  function Itoa(n: int): (s: string)
    ensures s != [] && '/' !in s && s[0] != 'n'
  {
    if n < 0 then
      var digits := Digits(-n);
      assert forall i :: 0 <= i < |digits| ==> IsDigit(digits[i]);
      "-" + digits
    else
      var digits := Digits(n);
      assert forall i :: 0 <= i < |digits| ==> IsDigit(digits[i]);
      digits
  }

  lemma ItoaInjective(m: int, n: int)
    requires Itoa(m) == Itoa(n)
    ensures m == n
  {
    hide Digits, DigitsValue;
    assert IsDigit(Digits(if m < 0 then -m else m)[0]) && IsDigit(Digits(if n < 0 then -n else n)[0]);
    assert (m < 0) == (n < 0);
    if m < 0 {
      assert Itoa(m)[1..] == Digits(-m) && Itoa(n)[1..] == Digits(-n);
      ValueOfDigits(-m);
      ValueOfDigits(-n);
    } else {
      ValueOfDigits(m);
      ValueOfDigits(n);
    }
  }
}
