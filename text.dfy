/**
 * Decimal digits as text: the fixed-width fields that `datetime.fromisoformat`
 * reads and that `strftime` writes zero padded, and the plain decimal
 * rendering of an `int` in an f-string.
 */
module Text {

  predicate IsDigit(c: char) {
    '0' <= c <= '9'
  }

  function DigitChar(d: int): (c: char)
    requires 0 <= d < 10
    ensures IsDigit(c)
  {
    (d + '0' as int) as char
  }

  function DigitValue(c: char): (d: int)
    requires IsDigit(c)
    ensures 0 <= d < 10 && DigitChar(d) == c
  {
    c as int - '0' as int
  }

  /** The `w` characters of `s` from index `i` on are all decimal digits. */
  predicate DigitsAt(s: string, i: int, w: int) {
    0 <= i && 0 <= w && i + w <= |s| && forall k :: i <= k < i + w ==> IsDigit(s[k])
  }

  // ---------------------------------------------------------------------------
  // Fixed-width fields

  /** `n` in exactly two digits, zero padded (`%02d`). */
  function Digits2(n: int): (s: string)
    requires 0 <= n < 100
    ensures |s| == 2 && DigitsAt(s, 0, 2)
  {
    [DigitChar(n / 10), DigitChar(n % 10)]
  }

  /** `n` in exactly four digits, zero padded (`%04d`). */
  function Digits4(n: int): (s: string)
    requires 0 <= n < 10000
    ensures |s| == 4 && DigitsAt(s, 0, 4)
  {
    Digits2(n / 100) + Digits2(n % 100)
  }

  /** `n` in exactly six digits, zero padded (`%06d`). */
  function Digits6(n: int): (s: string)
    requires 0 <= n < 1000000
    ensures |s| == 6 && DigitsAt(s, 0, 6)
  {
    Digits2(n / 10000) + Digits4(n % 10000)
  }

  /** The number written in the two digits of `s` at index `i`. */
  function Read2(s: string, i: int): (n: int)
    requires DigitsAt(s, i, 2)
    ensures 0 <= n < 100
  {
    10 * DigitValue(s[i]) + DigitValue(s[i + 1])
  }

  /** The number written in the four digits of `s` at index `i`. */
  function Read4(s: string, i: int): (n: int)
    requires DigitsAt(s, i, 4)
    ensures 0 <= n < 10000
  {
    100 * Read2(s, i) + Read2(s, i + 2)
  }

  /** The number written in the six digits of `s` at index `i`. */
  function Read6(s: string, i: int): (n: int)
    requires DigitsAt(s, i, 6)
    ensures 0 <= n < 1000000
  {
    10000 * Read2(s, i) + Read4(s, i + 2)
  }

  /** Reading a two-digit field written at index `i` gives the number back. */
  lemma Read2Digits2(s: string, i: int, n: int)
    requires 0 <= n < 100 && 0 <= i && i + 2 <= |s| && s[i..i + 2] == Digits2(n)
    ensures DigitsAt(s, i, 2) && Read2(s, i) == n
  {
    assert s[i] == Digits2(n)[0] && s[i + 1] == Digits2(n)[1];
  }

  lemma Read4Digits4(s: string, i: int, n: int)
    requires 0 <= n < 10000 && 0 <= i && i + 4 <= |s| && s[i..i + 4] == Digits4(n)
    ensures DigitsAt(s, i, 4) && Read4(s, i) == n
  {
    assert s[i..i + 4][..2] == Digits2(n / 100) && s[i..i + 4][2..] == Digits2(n % 100);
    assert s[i..i + 2] == s[i..i + 4][..2] && s[i + 2..i + 4] == s[i..i + 4][2..];
    Read2Digits2(s, i, n / 100);
    Read2Digits2(s, i + 2, n % 100);
  }

  lemma Read6Digits6(s: string, i: int, n: int)
    requires 0 <= n < 1000000 && 0 <= i && i + 6 <= |s| && s[i..i + 6] == Digits6(n)
    ensures DigitsAt(s, i, 6) && Read6(s, i) == n
  {
    assert s[i..i + 6][..2] == Digits2(n / 10000) && s[i..i + 6][2..] == Digits4(n % 10000);
    assert s[i..i + 2] == s[i..i + 6][..2] && s[i + 2..i + 6] == s[i..i + 6][2..];
    Read2Digits2(s, i, n / 10000);
    Read4Digits4(s, i + 2, n % 10000);
  }

  /** Writing back a two-digit field that was read gives the same characters. */
  lemma Digits2Read2(s: string, i: int)
    requires DigitsAt(s, i, 2)
    ensures Digits2(Read2(s, i)) == s[i..i + 2]
  {
  }

  lemma Digits4Read4(s: string, i: int)
    requires DigitsAt(s, i, 4)
    ensures Digits4(Read4(s, i)) == s[i..i + 4]
  {
    SplitHundreds(Read2(s, i), Read2(s, i + 2));
    Digits2Read2(s, i);
    Digits2Read2(s, i + 2);
  }

  /** Dividing `100 * a + b` by 100 recovers `a` and `b` when `b < 100`. */
  lemma SplitHundreds(a: int, b: int)
    requires 0 <= a && 0 <= b < 100
    ensures (100 * a + b) / 100 == a && (100 * a + b) % 100 == b
  {
  }

  /** Dividing `10000 * a + b` by 10000 recovers `a` and `b` when `b < 10000`. */
  lemma SplitTenThousands(a: int, b: int)
    requires 0 <= a && 0 <= b < 10000
    ensures (10000 * a + b) / 10000 == a && (10000 * a + b) % 10000 == b
  {
  }

  lemma Digits6Read6(s: string, i: int)
    requires DigitsAt(s, i, 6)
    ensures Digits6(Read6(s, i)) == s[i..i + 6]
  {
    SplitTenThousands(Read2(s, i), Read4(s, i + 2));
    Digits2Read2(s, i);
    Digits4Read4(s, i + 2);
  }

  // ---------------------------------------------------------------------------
  // Decimal numbers of any length

  predicate AllDigits(s: string) {
    forall i :: 0 <= i < |s| ==> IsDigit(s[i])
  }

  /** The number a string of decimal digits denotes, most significant digit first. */
  function ParseDigits(s: string): (n: nat)
    requires AllDigits(s)
  {
    if s == [] then 0 else 10 * ParseDigits(s[..|s| - 1]) + DigitValue(s[|s| - 1])
  }

  /** The decimal rendering of a natural number, without leading zeros (`str(n)`). */
  function NatToString(n: nat): (s: string)
    ensures |s| >= 1 && AllDigits(s)
    ensures |s| > 1 ==> s[0] != '0'
  {
    if n < 10 then [DigitChar(n)] else NatToString(n / 10) + [DigitChar(n % 10)]
  }

  /** The decimal rendering of an integer, with a leading `-` when negative (`str(i)`). */
  function IntToString(i: int): (s: string)
    ensures |s| >= 1
    ensures i >= 0 ==> AllDigits(s)
    ensures i < 0 ==> s[0] == '-' && AllDigits(s[1..])
  {
    if i >= 0 then NatToString(i) else "-" + NatToString(-i)
  }

  /** Reading back the rendering of a natural number gives the number. */
  lemma {:induction false} ParseNatToString(n: nat)
    ensures ParseDigits(NatToString(n)) == n
  {
    if n >= 10 {
      var s := NatToString(n);
      assert s[..|s| - 1] == NatToString(n / 10);
      ParseNatToString(n / 10);
    }
  }
}
