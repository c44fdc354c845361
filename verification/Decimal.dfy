/** Decimal notation of integers: str(n), and reading it back. */
module Decimal {
  import opened KeyOrder

  function DigitChar(d: nat): char
    requires d < 10
  {
    '0' + d as char
  }

  predicate IsDigit(c: char) {
    '0' <= c <= '9'
  }

  function DigitValue(c: char): nat
    requires IsDigit(c)
  {
    c as int - '0' as int
  }

  /** str(n) for n >= 0 */
  function Digits(n: nat): (s: string)
    ensures s != "" && forall c :: c in s ==> IsDigit(c)
  {
    if n < 10 then [DigitChar(n)] else Digits(n / 10) + [DigitChar(n % 10)]
  }

  /** str(n) */
  function Str(n: int): string {
    if n < 0 then "-" + Digits(-n) else Digits(n)
  }

  /** The number a string of digits denotes. */
  function Value(s: string): nat
    requires forall c :: c in s ==> IsDigit(c)
  {
    if s == "" then 0 else 10 * Value(s[..|s| - 1]) + DigitValue(s[|s| - 1])
  }

  lemma {:induction false} ValueOfDigits(n: nat)
    ensures Value(Digits(n)) == n
  {
    if n >= 10 {
      ValueOfDigits(n / 10);
      assert Digits(n)[..|Digits(n)| - 1] == Digits(n / 10);
    } else {
      assert Digits(n)[..0] == "";
    }
  }

  /** d followed by k zeros */
  function Scaled(d: nat, k: nat): nat {
    if k == 0 then d else 10 * Scaled(d, k - 1)
  }

  lemma {:induction false} LengthOfDigits(n: nat, k: nat)
    requires k > 0 && n < Scaled(1, k) && (k > 1 ==> Scaled(1, k - 1) <= n)
    ensures |Digits(n)| == k
  {
    if k > 1 {
      LengthOfDigits(n / 10, k - 1);
    }
  }

  lemma {:induction false} LessExtends(x: Key, y: Key, u: Key, v: Key)
    requires Less(x, y) && |x| == |y|
    ensures Less(x + u, y + v)
  {
    if x[0] == y[0] {
      LessExtends(x[1..], y[1..], u, v);
    }
    assert (x + u)[1..] == x[1..] + u && (y + v)[1..] == y[1..] + v;
  }

  lemma CodesConcat(a: string, b: string)
    ensures Codes(a + b) == Codes(a) + Codes(b)
  {
  }

  /** For numbers of equal length, the order of the texts is the order of the
      numbers. */
  lemma {:induction false} DigitsKeepOrder(a: nat, b: nat)
    requires a < b && |Digits(a)| == |Digits(b)|
    ensures Less(Codes(Digits(a)), Codes(Digits(b)))
  {
    if b < 10 {
    } else {
      var x, y := Digits(a / 10), Digits(b / 10);
      var u, v := [DigitChar(a % 10)], [DigitChar(b % 10)];
      CodesConcat(x, u);
      CodesConcat(y, v);
      if a / 10 < b / 10 {
        DigitsKeepOrder(a / 10, b / 10);
        LessExtends(Codes(x), Codes(y), Codes(u), Codes(v));
      } else {
        LessAfterFront(Codes(x), Codes(u), Codes(v));
      }
    }
  }

  lemma SignOfStr(n: int)
    ensures Str(n)[0] == '-' <==> n < 0
  {
    assert n >= 0 ==> IsDigit(Digits(n)[0]);
  }

  lemma StrIsInjective(a: int, b: int)
    requires Str(a) == Str(b)
    ensures a == b
  {
    SignOfStr(a);
    SignOfStr(b);
    if a < 0 {
      assert Str(a)[1..] == Digits(-a) && Str(b)[1..] == Digits(-b);
      ValueOfDigits(-a);
      ValueOfDigits(-b);
    } else {
      ValueOfDigits(a);
      ValueOfDigits(b);
    }
  }
}
