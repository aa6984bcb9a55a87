/** Bytes of a G-code file and the ASCII classes the scanners test for. */
module Ascii {

  /** One byte of the file, as an unsigned value. Java's signed bytes only
      ever meet ASCII constants below 128 in comparisons, so both readings
      classify every byte the same way. */
  type Byte = b: int | 0 <= b < 256

  const TAB: Byte := 9
  const LF: Byte := 10
  const CR: Byte := 13
  const SPACE: Byte := 32
  const DOT: Byte := 46
  const ZERO: Byte := 48
  const NINE: Byte := 57

  predicate IsDigit(b: Byte)
  {
    ZERO <= b <= NINE
  }

  function DigitValue(b: Byte): (d: nat)
    requires IsDigit(b)
    ensures d < 10
  {
    b - ZERO
  }

  predicate AllDigits(s: seq<Byte>)
  {
    forall i :: 0 <= i < |s| ==> IsDigit(s[i])
  }

  function Pow10(n: nat): (r: nat)
    ensures r >= 1
  {
    if n == 0 then 1 else 10 * Pow10(n - 1)
  }

  /** The ordinary base-10 value of a run of digits, most significant first. */
  function DecimalValue(s: seq<Byte>): (r: nat)
    requires AllDigits(s)
    ensures r < Pow10(|s|)
  {
    if |s| == 0 then 0 else 10 * DecimalValue(s[..|s| - 1]) + DigitValue(s[|s| - 1])
  }

  lemma ShiftAdd(x: nat, y: nat, z: nat, d: nat)
    ensures 10 * (x * y + z) + d == x * (10 * y) + (10 * z + d)
  {
  }

  /** Appending digits shifts the value of the leading ones left by one decimal place each. */
  lemma {:induction false} DecimalAppend(a: seq<Byte>, b: seq<Byte>)
    requires AllDigits(a) && AllDigits(b)
    ensures AllDigits(a + b)
    ensures DecimalValue(a + b) == DecimalValue(a) * Pow10(|b|) + DecimalValue(b)
    decreases |b|
  {
    if |b| > 0 {
      var b' := b[..|b| - 1];
      var d := DigitValue(b[|b| - 1]);
      assert (a + b)[..|a + b| - 1] == a + b';
      assert (a + b)[|a + b| - 1] == b[|b| - 1];
      DecimalAppend(a, b');
      assert DecimalValue(b) == 10 * DecimalValue(b') + d;
      assert Pow10(|b|) == 10 * Pow10(|b'|);
      ShiftAdd(DecimalValue(a), Pow10(|b'|), DecimalValue(b'), d);
    } else {
      assert a + b == a;
    }
  }

  /** The shortest decimal spelling of n, as Java prints an int. */
  function DecimalDigits(n: nat): (r: seq<Byte>)
    ensures |r| >= 1 && AllDigits(r)
    ensures DecimalValue(r) == n
    ensures |r| > 1 ==> r[0] != ZERO
    decreases n
  {
    if n < 10 then [ZERO + n]
    else
      var r := DecimalDigits(n / 10) + [ZERO + n % 10];
      assert r[..|r| - 1] == DecimalDigits(n / 10);
      r
  }
}
