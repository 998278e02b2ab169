/** Decimal rendering of an unsigned value, as `sprintf("%lu")` produces it
    for the convert opcode, and the reading back of such a rendering. */
module Decimal {
  import opened Bytes

  /** The ASCII code of the digit '0'. */
  const ZERO: Byte := 0x30

  /** Size of the `char str[20]` buffer the convert opcode renders into. */
  const CONVERT_BUFFER: nat := 20

  predicate IsDigit(b: Byte)
  {
    ZERO <= b <= ZERO + 9
  }

  function Pow10(n: nat): (r: nat)
    ensures r > 0
  {
    if n == 0 then 1 else 10 * Pow10(n - 1)
  }

  /** The ASCII decimal digits of `n`, most significant first, without
      leading zeros (a single '0' for zero). */
  function Digits(n: nat): (r: seq<Byte>)
    ensures |r| >= 1
    ensures r[0] == ZERO <==> n == 0
  {
    if n < 10 then [ZERO + n] else Digits(n / 10) + [ZERO + n % 10]
  }

  /** Every byte of a rendering is an ASCII digit. */
  lemma {:induction false} DigitsAreDigits(n: nat)
    ensures forall i :: 0 <= i < |Digits(n)| ==> IsDigit(Digits(n)[i])
  {
    if n >= 10 {
      DigitsAreDigits(n / 10);
    }
  }

  /** The number a string of ASCII digits denotes. */
  function Value(s: seq<Byte>): (v: nat)
    requires forall i :: 0 <= i < |s| ==> IsDigit(s[i])
  {
    if s == [] then 0
    else
      var last := s[|s| - 1];
      assert IsDigit(last);
      Value(s[..|s| - 1]) * 10 + (last - ZERO)
  }

  /** Reading the rendering back gives the rendered number. */
  lemma {:induction false} ValueDigits(n: nat)
    ensures forall i :: 0 <= i < |Digits(n)| ==> IsDigit(Digits(n)[i])
    ensures Value(Digits(n)) == n
  {
    DigitsAreDigits(n);
    if n >= 10 {
      var d := Digits(n);
      assert d[..|d| - 1] == Digits(n / 10);
      ValueDigits(n / 10);
    }
  }

  lemma {:induction false} Pow10Add(a: nat, b: nat)
    ensures Pow10(a + b) == Pow10(a) * Pow10(b)
  {
    if a > 0 {
      Pow10Add(a - 1, b);
    }
  }

  /** A number below 10^k has at most k digits, and one at or above 10^k has
      more than k. */
  lemma {:induction false} DigitsLength(n: nat, k: nat)
    ensures 0 < k && n < Pow10(k) ==> |Digits(n)| <= k
    ensures n >= Pow10(k) ==> |Digits(n)| > k
  {
    if k > 0 && n >= 10 {
      DigitsLength(n / 10, k - 1);
    }
  }

  /** The rendering and its terminating NUL fit a buffer of `size` bytes. */
  predicate FitsBuffer(n: nat, size: nat)
  {
    |Digits(n)| + 1 <= size
  }

  /** As written, `char str[20]` has no room for the NUL after a 20-digit
      value: every value from 10^19 up has 20 digits or more. */
  lemma ConvertBufferOverflow(n: nat)
    requires Pow10(19) <= n
    ensures !FitsBuffer(n, CONVERT_BUFFER)
  {
    DigitsLength(n, 19);
  }

  /** Such values are within reach of width 8: 10^19 is below 2^64. */
  lemma TwentyDigitWords()
    ensures Pow10(19) < WORD
  {
    Pow10Add(10, 9);
    Pow10Add(5, 5);
    Pow10Add(5, 4);
    assert Pow10(5) == 100_000 && Pow10(4) == 10_000;
  }

  /** Every 64-bit value's rendering, NUL included, fits 21 bytes. */
  lemma ConvertBufferSufficient(n: U64)
    ensures FitsBuffer(n, CONVERT_BUFFER + 1)
  {
    Pow10Add(10, 10);
    Pow10Add(5, 5);
    assert Pow10(5) == 100_000;
    DigitsLength(n, 20);
  }
}
