/** Go strings as byte sequences, and the decimal printing of the strconv package. */
module GoStrings {

  /** One byte of a Go string, written as the character that has its code. */
  type byte = c: char | c as int < 256 witness ' '

  type Bytes = seq<byte>

  predicate IsDigit(c: byte) {
    '0' <= c <= '9'
  }

  predicate AllDigits(s: Bytes) {
    forall i | 0 <= i < |s| :: IsDigit(s[i])
  }

  function Digit(d: nat): (c: byte)
    requires d < 10
    ensures IsDigit(c) && DigitValue(c) == d
  {
    '0' + d as char
  }

  function DigitValue(c: byte): nat
    requires IsDigit(c)
  {
    c as int - '0' as int
  }

  /** strconv.Itoa on a number that is not negative. */
  function Itoa(n: nat): (s: Bytes)
    ensures |s| > 0 && AllDigits(s)
  {
    if n < 10 then [Digit(n)] else Itoa(n / 10) + [Digit(n % 10)]
  }

  /** strconv.FormatInt in base 10. */
  function FormatInt(i: int): Bytes {
    if i < 0 then "-" + Itoa(-i) else Itoa(i)
  }

  /** The number that a run of decimal digits denotes. */
  function Atoi(s: Bytes): nat
    requires AllDigits(s)
  {
    if s == [] then 0 else 10 * Atoi(s[..|s| - 1]) + DigitValue(s[|s| - 1])
  }

  lemma {:induction false} AtoiItoa(n: nat)
    ensures Atoi(Itoa(n)) == n
  {
    if n >= 10 {
      AtoiItoa(n / 10);
      assert Itoa(n)[..|Itoa(n)| - 1] == Itoa(n / 10);
    }
  }

  const DIGITS: seq<byte> := ['0', '1', '2', '3', '4', '5', '6', '7', '8', '9']

  /** Digit by digit: the last one is the remainder, the others print the quotient, and there is no leading zero. */
  lemma {:induction false} ItoaIsDecimal(n: nat)
    ensures var s := Itoa(n);
      && s[|s| - 1] == DIGITS[n % 10]
      && (|s| == 1 <==> n < 10)
      && (n >= 10 ==> s[..|s| - 1] == Itoa(n / 10))
      && (n > 0 ==> s[0] != '0')
  {
    DigitIsItsCode(n % 10);
    if n >= 10 {
      ItoaIsDecimal(n / 10);
      assert Itoa(n)[..|Itoa(n)| - 1] == Itoa(n / 10) && Itoa(n)[0] == Itoa(n / 10)[0];
    }
  }

  lemma DigitIsItsCode(d: nat)
    requires d < 10
    ensures Digit(d) == DIGITS[d]
  {
  }

  /** A negative number has one minus sign in front of its absolute value. */
  lemma FormatIntSigns(i: int)
    ensures i >= 0 ==> FormatInt(i) == Itoa(i)
    ensures i < 0 ==> FormatInt(i) == ['-'] + Itoa(-i)
  {
  }

  /** Decimal printing is injective. */
  lemma ItoaInjective(m: nat, n: nat)
    requires Itoa(m) == Itoa(n)
    ensures m == n
  {
    AtoiItoa(m);
    AtoiItoa(n);
  }
}
