/** Decimal digit strings: what a run of ASCII digits denotes, and the
    canonical digit string of a natural number. */
module Decimal {

  predicate IsDigit(c: char) {
    '0' <= c <= '9'
  }

  function DigitValue(c: char): (d: nat)
    requires IsDigit(c)
    ensures d < 10
  {
    c as int - '0' as int
  }

  predicate AllDigits(s: seq<char>) {
    forall i :: 0 <= i < |s| ==> IsDigit(s[i])
  }

  /** The number a digit string denotes, most significant digit first. */
  function DecimalValue(s: seq<char>): nat
    requires AllDigits(s)
    decreases |s|
  {
    if s == [] then 0 else DecimalValue(s[..|s| - 1]) * 10 + DigitValue(s[|s| - 1])
  }

  function Pow10(k: nat): (r: nat)
    ensures r >= 1
  {
    if k == 0 then 1 else 10 * Pow10(k - 1)
  }

  function DigitChar(d: nat): (c: char)
    requires d < 10
    ensures IsDigit(c) && DigitValue(c) == d
  {
    ('0' as int + d) as char
  }

  /** The shortest digit string of `n` (no leading zero unless `n` is 0). */
  function DecimalString(n: nat): (s: seq<char>)
    ensures 1 <= |s| && AllDigits(s)
    ensures (s[0] == '0') == (n == 0)
  {
    if n < 10 then [DigitChar(n)] else DecimalString(n / 10) + [DigitChar(n % 10)]
  }

  /** Appending one digit multiplies by ten and adds it. */
  lemma DecimalSnoc(s: seq<char>, c: char)
    requires AllDigits(s) && IsDigit(c)
    ensures AllDigits(s + [c])
    ensures DecimalValue(s + [c]) == DecimalValue(s) * 10 + DigitValue(c)
  {
    assert (s + [c])[..|s|] == s;
  }

  /** Reading the digit string of `n` gives back `n`. */
  lemma {:induction false} DecimalRoundTrip(n: nat)
    ensures DecimalValue(DecimalString(n)) == n
  {
    if n >= 10 {
      DecimalRoundTrip(n / 10);
      DecimalSnoc(DecimalString(n / 10), DigitChar(n % 10));
    }
  }

  /** A digit string of length k denotes less than 10^k. */
  lemma {:induction false} DecimalBound(s: seq<char>)
    requires AllDigits(s)
    ensures DecimalValue(s) < Pow10(|s|)
  {
    if s != [] {
      DecimalBound(s[..|s| - 1]);
    }
  }

  /** Powers of ten grow with the exponent. */
  lemma {:induction false} Pow10Monotone(j: nat, k: nat)
    requires j <= k
    ensures Pow10(j) <= Pow10(k)
    decreases k - j
  {
    if j < k {
      Pow10Monotone(j, k - 1);
    }
  }

  /** Splitting a digit string: the left part is shifted by the right part's length. */
  lemma {:induction false} DecimalConcat(a: seq<char>, b: seq<char>)
    requires AllDigits(a) && AllDigits(b)
    ensures AllDigits(a + b)
    ensures DecimalValue(a + b) == DecimalValue(a) * Pow10(|b|) + DecimalValue(b)
  {
    if b == [] {
      assert a + b == a;
    } else {
      var b' := b[..|b| - 1];
      var c := b[|b| - 1];
      assert b == b' + [c];
      assert a + b == (a + b') + [c];
      DecimalConcat(a, b');
      DecimalSnoc(a + b', c);
      DecimalSnoc(b', c);
      ShiftArith(DecimalValue(a), Pow10(|b'|), DecimalValue(b'), DigitValue(c));
    }
  }

  lemma ShiftArith(x: int, p: int, y: int, c: int)
    ensures (x * p + y) * 10 + c == x * (10 * p) + (y * 10 + c)
  {
  }

  /** A string of zeros denotes 0. */
  lemma {:induction false} ZerosValue(z: seq<char>)
    requires forall i :: 0 <= i < |z| ==> z[i] == '0'
    ensures AllDigits(z) && DecimalValue(z) == 0
  {
    if z != [] {
      ZerosValue(z[..|z| - 1]);
    }
  }

  /** Leading zeros do not change the value of a digit string. */
  lemma LeadingZeros(z: seq<char>, s: seq<char>)
    requires forall i :: 0 <= i < |z| ==> z[i] == '0'
    requires AllDigits(s)
    ensures AllDigits(z + s) && DecimalValue(z + s) == DecimalValue(s)
  {
    ZerosValue(z);
    DecimalConcat(z, s);
  }
}
