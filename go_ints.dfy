/** Go's fixed-width integers as the handlers use them; Dafny's own integers are unbounded. */
module GoInts {
  const MinInt32: int := -0x8000_0000
  const MaxInt32: int := 0x7fff_ffff
  const TwoTo32: int := 0x1_0000_0000

  type int32 = x: int | -0x8000_0000 <= x <= 0x7fff_ffff
  type int64 = x: int | -0x8000_0000_0000_0000 <= x <= 0x7fff_ffff_ffff_ffff
  type uint64 = x: int | 0 <= x <= 0xffff_ffff_ffff_ffff

  /** Go's conversion `int32(x)`, which is also what int32 arithmetic does on overflow:
      keep the low 32 bits and read them in two's complement. */
  function Wrap32(x: int): (r: int32)
    ensures (x - r) % TwoTo32 == 0
    ensures MinInt32 <= x <= MaxInt32 ==> r == x
  {
    var m := x % TwoTo32;
    if m <= MaxInt32 then m else m - TwoTo32
  }

  /** Go's integer `/`, which truncates toward zero (Dafny's rounds toward negative infinity). */
  function GoQuo(a: int, b: int): (q: int)
    requires b > 0
    ensures a >= 0 ==> 0 <= q <= a && 0 <= a - q * b < b
    ensures a < 0 ==> a <= q <= 0 && -b < a - q * b <= 0
  {
    if a >= 0 then
      NatDivision(a, b);
      a / b
    else
      NatDivision(-a, b);
      -((-a) / b)
  }

  /** Division of a natural number: the quotient is at most the dividend, the remainder below b. */
  lemma NatDivision(a: int, b: int)
    requires a >= 0 && b > 0
    ensures 0 <= a / b <= a && 0 <= a - a / b * b < b
  {
    var q, r := a / b, a % b;
    assert a == q * b + r && 0 <= r < b;
    if q < 0 {
      ScaleBelow(-q, b);
      assert false;
    }
    ScaleBelow(q, b);
  }

  /** A natural number scaled by a positive factor does not shrink. */
  lemma ScaleBelow(q: int, b: int)
    requires q >= 0 && b >= 1
    ensures q * b >= q
  {
    assert q * b == q * (b - 1) + q;
  }

  function DigitChar(d: int): (c: char)
    requires 0 <= d < 10
    ensures '0' <= c <= '9' && c as int - '0' as int == d
  {
    "0123456789"[d]
  }

  predicate AllDigits(s: string) {
    forall i :: 0 <= i < |s| ==> '0' <= s[i] <= '9'
  }

  /** The number a string of decimal digits denotes, most significant digit first. */
  function DigitsValue(s: string): (v: nat)
    requires AllDigits(s)
  {
    if |s| == 0 then 0 else DigitsValue(s[..|s| - 1]) * 10 + (s[|s| - 1] as int - '0' as int)
  }

  /** The text `fmt` prints for an integer with the `%d` verb: a minus sign for a negative number,
      then the decimal digits of its magnitude without leading zeros. */
  function DecimalString(n: int): (s: string)
    ensures |s| >= 1
    ensures n >= 0 ==> AllDigits(s) && DigitsValue(s) == n && (|s| > 1 ==> s[0] != '0')
    ensures n < 0 ==> && s[0] == '-' && |s| >= 2 && AllDigits(s[1..]) && DigitsValue(s[1..]) == -n
                      && s[1] != '0'
    decreases if n < 0 then 1 - n else n
  {
    if n < 0 then
      var digits := DecimalString(-n);
      assert ("-" + digits)[1..] == digits;
      "-" + digits
    else if n < 10 then [DigitChar(n)]
    else
      var front, last := DecimalString(n / 10), [DigitChar(n % 10)];
      assert (front + last)[..|front + last| - 1] == front;
      assert (front + last)[0] == front[0];
      front + last
  }
}
