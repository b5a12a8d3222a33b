/** strconv.Itoa and strconv.FormatUint in base 10, with the value they stand for. */
module Decimal {

  predicate IsDigit(c: char) {
    '0' <= c <= '9'
  }

  predicate AllDigits(s: string) {
    forall i :: 0 <= i < |s| ==> IsDigit(s[i])
  }

  function Digits(n: nat): (s: string)
    ensures s != "" && AllDigits(s)
  {
    if n < 10 then [('0' as int + n) as char] else Digits(n / 10) + [('0' as int + n % 10) as char]
  }

  function Value(s: string): nat
    requires AllDigits(s)
  {
    if s == "" then 0 else 10 * Value(s[..|s| - 1]) + (s[|s| - 1] as int - '0' as int)
  }

  lemma {:induction false} ValueOfDigits(n: nat)
    ensures Value(Digits(n)) == n
  {
    if n >= 10 {
      ValueOfDigits(n / 10);
      assert Digits(n)[..|Digits(n)| - 1] == Digits(n / 10);
    }
  }

  function Itoa(n: int): string {
    if n < 0 then "-" + Digits(-n) else Digits(n)
  }

  lemma ItoaIsInjective(a: int, b: int)
    requires Itoa(a) == Itoa(b)
    ensures a == b
  {
    if a < 0 {
      assert Itoa(a)[0] == '-';
    }
    if b < 0 {
      assert Itoa(b)[0] == '-';
    }
    assert (a < 0) == (b < 0);
    var x, y := if a < 0 then -a else a, if b < 0 then -b else b;
    assert Digits(x) == if a < 0 then Itoa(a)[1..] else Itoa(a);
    assert Digits(y) == if b < 0 then Itoa(b)[1..] else Itoa(b);
    ValueOfDigits(x);
    ValueOfDigits(y);
  }
}
