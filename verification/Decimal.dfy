/** Decimal numbers as Go's %d prints them. */
module Decimal {

  predicate IsDigit(c: char) { '0' <= c <= '9' }

  function Digit(n: nat): (c: char)
    requires n < 10
    ensures IsDigit(c) && c - '0' == n as char
  {
    '0' + n as char
  }

  /** %d */
  function Dec(n: nat): string {
    if n < 10 then [Digit(n)] else Dec(n / 10) + [Digit(n % 10)]
  }

  function Value(s: string): nat
    requires forall c :: c in s ==> IsDigit(c)
  {
    if s == "" then 0
    else
      assert s[|s| - 1] in s && IsDigit(s[|s| - 1]);
      10 * Value(s[..|s| - 1]) + (s[|s| - 1] - '0') as nat
  }

  /** Digits, and no leading zero but that of 0 itself. */
  predicate IsDecimal(s: string) {
    s != "" && (forall c :: c in s ==> IsDigit(c)) && (s[0] == '0' ==> |s| == 1)
  }

  /** A number is printed as a decimal of its value; 0 as one digit, anything else without a leading zero. */
  lemma {:induction false} DecIsRead(n: nat)
    ensures IsDecimal(Dec(n)) && Value(Dec(n)) == n
    ensures Dec(n)[0] == '0' <==> n == 0
  {
    if n < 10 {
      assert [Digit(n)][..0] == "";
    } else {
      DecIsRead(n / 10);
      assert Dec(n)[..|Dec(n)| - 1] == Dec(n / 10);
    }
  }

  /** And a decimal is what its value is printed as: there is one way to print a number. */
  lemma {:induction false} ReadIsDec(s: string)
    requires IsDecimal(s)
    ensures Dec(Value(s)) == s
  {
    assert s[|s| - 1] in s && IsDigit(s[|s| - 1]);
    if |s| == 1 {
      assert s[..0] == "" && Value("") == 0;
      assert Value(s) == (s[0] - '0') as nat < 10;
      assert Dec(Value(s)) == [Digit(Value(s))] && s == [s[0]];
    } else {
      var head := s[..|s| - 1];
      assert head[0] == s[0] && s[|s| - 1] in s;
      ReadIsDec(head);
      DecIsRead(Value(head));
      assert s == head + [s[|s| - 1]];
      assert Value(s) / 10 == Value(head) > 0;
    }
  }
}
