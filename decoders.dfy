/** The numeric decoders of cparser.c. Each one reads the half-open window
    [start, end) of a character buffer, where `end` is an exclusive end index
    (the source calls it `length`), and reports success together with the
    decoded value. Each decoder is a pure specification function over the
    window plus a method that performs the source's loop and is proved to
    compute that function. Values are exact: reals stand for float32. */
module Decoders {
  import opened Options
  import opened Decimal

  const TwoTo32: nat := 0x1_0000_0000

  type uint32 = x: int | 0 <= x < 0x1_0000_0000
  type int32 = x: int | -0x8000_0000 <= x < 0x8000_0000

  /** The characters of the window [start, end); empty when start >= end. */
  function Window(s: seq<char>, start: nat, end: nat): (w: seq<char>)
    requires end <= |s|
    ensures |w| == if start < end then end - start else 0
    ensures forall k :: 0 <= k < |w| ==> w[k] == s[start + k]
  {
    if start < end then s[start..end] else []
  }

  /** Storing an unsigned 32-bit product into an int32: the unique int32
      congruent to `x` modulo 2^32 (two's complement). */
  function Wrap32(x: int): (r: int32)
    ensures (r - x) % TwoTo32 == 0
  {
    var m := x % TwoTo32;
    if m < 0x8000_0000 then m else m - TwoTo32
  }

  lemma ModStep(a: int, d: int)
    ensures ((a % TwoTo32) * 10 + d) % TwoTo32 == (a * 10 + d) % TwoTo32
  {
    var q := a / TwoTo32;
    var r := a % TwoTo32;
    assert a == q * TwoTo32 + r;
    assert a * 10 + d == (r * 10 + d) + (q * 10) * TwoTo32;
    ModMultiple(r * 10 + d, q * 10);
  }

  lemma ModMultiple(x: int, k: int)
    ensures (x + k * TwoTo32) % TwoTo32 == x % TwoTo32
  {
  }

  /** One loop step of parseUnsignedInteger keeps the accumulator equal to
      the decimal value read so far, modulo 2^32. */
  lemma UnsignedStep(prefix: seq<char>, c: char, acc: int)
    requires AllDigits(prefix) && IsDigit(c)
    requires acc == Mod32(DecimalValue(prefix))
    ensures AllDigits(prefix + [c])
    ensures Mod32(acc * 10 + DigitValue(c)) == Mod32(DecimalValue(prefix + [c]))
  {
    DecimalSnoc(prefix, c);
    ModStep(DecimalValue(prefix), DigitValue(c));
  }

  // ---------------------------------------------------------------------
  // parseUnsignedInteger

  /** Succeeds when every character of the window is a decimal digit (an
      empty window gives 0); the value is the window's decimal value,
      accumulated in a uint32 and so taken modulo 2^32. */
  function UnsignedDecode(s: seq<char>, start: nat, end: nat): Option<uint32>
    requires end <= |s|
  {
    var w := Window(s, start, end);
    if AllDigits(w) then Some(Mod32(DecimalValue(w))) else None
  }

  /** A value accumulated in a uint32: taken modulo 2^32. */
  function Mod32(x: int): uint32 {
    x % TwoTo32
  }

  method ParseUnsignedInteger(s: seq<char>, start: nat, end: nat) returns (ok: bool, value: uint32)
    requires end <= |s|
    ensures UnsignedDecode(s, start, end) == if ok then Some(value) else None
  {
    ghost var w := Window(s, start, end);
    value := 0;
    var i := start;
    while i < end
      invariant start <= i <= end || i == start
      invariant AllDigits(w[..i - start])
      invariant value == Mod32(DecimalValue(w[..i - start]))
    {
      if !IsDigit(s[i]) {
        assert w[i - start] == s[i];
        return false, 0;
      }
      UnsignedStep(w[..i - start], s[i], value);
      assert w[..i + 1 - start] == w[..i - start] + [s[i]];
      value := Mod32(value * 10 + DigitValue(s[i]));
      i := i + 1;
    }
    assert w[..i - start] == w;
    ok := true;
  }

  // ---------------------------------------------------------------------
  // getSign and cropJerk

  /** The characters cropJerk skips. */
  predicate IsJerk(c: char) {
    c == '0' || c == ' '
  }

  /** The first index at or after `i` inside the window that is neither '0'
      nor ' ', or `end` when there is none. */
  function Crop(s: seq<char>, i: nat, end: nat): (p: nat)
    requires i <= end <= |s|
    ensures i <= p <= end
    ensures forall k :: i <= k < p ==> IsJerk(s[k])
    ensures p < end ==> !IsJerk(s[p])
    decreases end - i
  {
    if i == end || !IsJerk(s[i]) then i else Crop(s, i + 1, end)
  }

  /** The sign of a window: -1 exactly when it starts with '-'. */
  function SignOf(s: seq<char>, start: nat, end: nat): (sign: int)
    requires end <= |s|
    ensures sign == -1 || sign == 1
  {
    if start < end && s[start] == '-' then -1 else 1
  }

  /** One character for a leading '-' or '+', none otherwise. */
  function SignLength(s: seq<char>, start: nat, end: nat): (n: nat)
    requires end <= |s|
  {
    if start < end && (s[start] == '-' || s[start] == '+') then 1 else 0
  }

  /** sign * x for a sign of -1 or +1. */
  function ApplySign(sign: int, x: int): int
    requires sign == -1 || sign == 1
  {
    if sign == -1 then -x else x
  }

  /** sign * x on reals, for a sign of -1 or +1. */
  function ApplySignReal(sign: int, x: real): real
    requires sign == -1 || sign == 1
  {
    if sign == -1 then -x else x
  }

  /** Where the magnitude starts: past at most one sign, then past any run
      of '0' and ' '. */
  function SignStop(s: seq<char>, start: nat, end: nat): (p: nat)
    requires start < end <= |s|
  {
    Crop(s, start + SignLength(s, start, end), end)
  }

  /** cropJerk, stopping at or past the window end as the source's loop does
      whenever its 8-bit index does not wrap; every caller treats that stop
      as an empty remainder. The loop with the wrap is `CropAsWritten`. */
  method CropJerk(s: seq<char>, start: nat, end: nat) returns (stop: nat)
    requires start <= end <= |s|
    ensures stop == Crop(s, start, end)
  {
    stop := start;
    while stop < end && IsJerk(s[stop])
      invariant start <= stop <= end
      invariant Crop(s, stop, end) == Crop(s, start, end)
    {
      stop := stop + 1;
    }
  }

  /** The source's cropJerk loop as written. Its index is a uint8_t that
      wraps from 255 to 0, and the window end does not stop it: the clamp
      to the last index is overwritten by the assignment after the loop.
      `buf` holds the 256 characters the index can reach from the pointer
      cropJerk is given. `fuel` bounds the iterations examined; None means
      the loop was still running when the fuel ran out. */
  function CropAsWritten(buf: seq<char>, i: nat, fuel: nat): Option<nat>
    requires i < 256 <= |buf|
    decreases fuel
  {
    if !IsJerk(buf[i]) then Some(i)
    else if fuel == 0 then None
    else CropAsWritten(buf, (i + 1) % 256, fuel - 1)
  }

  /** When every index a uint8_t can reach holds '0' or ' ', the source's
      loop never ends: no amount of fuel brings it to an exit. */
  lemma {:induction false} CropAsWrittenNeverEnds(buf: seq<char>, i: nat, fuel: nat)
    requires i < 256 <= |buf|
    requires forall k :: 0 <= k < 256 ==> IsJerk(buf[k])
    ensures CropAsWritten(buf, i, fuel) == None
    decreases fuel
  {
    if fuel > 0 {
      CropAsWrittenNeverEnds(buf, (i + 1) % 256, fuel - 1);
    }
  }

  /** getSign. On an empty window the source writes only the sign; `stop`
      is then left at `start`, and no caller reads it. */
  method GetSign(s: seq<char>, start: nat, end: nat) returns (sign: int, stop: nat)
    requires end <= |s|
    ensures sign == SignOf(s, start, end)
    ensures start < end ==> stop == SignStop(s, start, end)
  {
    var parseIdx := start;
    sign := 1;
    stop := start;
    if start < end {
      if s[parseIdx] == '-' {
        parseIdx := parseIdx + 1;
        sign := -1;
      } else if s[parseIdx] == '+' {
        parseIdx := parseIdx + 1;
        sign := 1;
      }
      stop := CropJerk(s, parseIdx, end);
    }
  }

  // ---------------------------------------------------------------------
  // parseSignedInteger

  /** An empty window gives 0; otherwise the remainder after the sign and the
      cropped run must decode as an unsigned integer, and the result is the
      uint32 product `value * sign` stored into an int32. */
  function SignedDecode(s: seq<char>, start: nat, end: nat): Option<int32>
    requires end <= |s|
  {
    if start >= end then Some(0)
    else match UnsignedDecode(s, SignStop(s, start, end), end)
      case None => None
      case Some(u) => Some(Wrap32(ApplySign(SignOf(s, start, end), u)))
  }

  method ParseSignedInteger(s: seq<char>, start: nat, end: nat) returns (ok: bool, value: int32)
    requires end <= |s|
    ensures ok == SignedDecode(s, start, end).Some?
    ensures ok ==> value == SignedDecode(s, start, end).value
  {
    value := 0;
    ok := true;
    if start < end {
      var sign, parseIdx := GetSign(s, start, end);
      var u;
      ok, u := ParseUnsignedInteger(s, parseIdx, end);
      if !ok {
        return false, 0;
      }
      value := Wrap32(ApplySign(sign, u));
    }
  }

  // ---------------------------------------------------------------------
  // parseFractional

  /** The first '.' at or after `i` inside the window, or `end`. */
  function FindDot(s: seq<char>, i: nat, end: nat): (d: nat)
    requires i <= end <= |s|
    ensures i <= d <= end
    ensures forall k :: i <= k < d ==> s[k] != '.'
    ensures d < end ==> s[d] == '.'
    decreases end - i
  {
    if i == end || s[i] == '.' then i else FindDot(s, i + 1, end)
  }

  /** Digits d1 .. dk after the point denote d1/10 + d2/100 + ... + dk/10^k. */
  function FractionValue(f: seq<char>): real
    requires AllDigits(f)
  {
    if f == [] then 0.0 else (DigitValue(f[0]) as real + FractionValue(f[1..])) / 10.0
  }

  /** One more fractional digit at position k adds digit / 10^k; this is the
      step of the source's `fraction += digit / divisor` loop. */
  lemma {:induction false} FractionSnoc(f: seq<char>, c: char)
    requires AllDigits(f) && IsDigit(c)
    ensures AllDigits(f + [c])
    ensures FractionValue(f + [c]) == FractionValue(f) + DigitValue(c) as real / Pow10(|f| + 1) as real
  {
    if f == [] {
      assert ([] + [c])[1..] == [];
    } else {
      assert (f + [c])[1..] == f[1..] + [c];
      FractionSnoc(f[1..], c);
      TenthOfShift(DigitValue(c) as real, Pow10(|f|) as real);
    }
  }

  lemma TenthOfShift(d: real, b: real)
    requires b > 0.0
    ensures (d / b) / 10.0 == d / (10.0 * b)
  {
  }

  /** A fraction is less than one. */
  lemma {:induction false} FractionBelowOne(f: seq<char>)
    requires AllDigits(f)
    ensures 0.0 <= FractionValue(f) < 1.0
  {
    if f != [] {
      FractionBelowOne(f[1..]);
    }
  }

  /** An empty window, or one that is only a sign and cropped characters,
      gives 0. Otherwise the rest is decoded as a fixed-point number. */
  function FractionalDecode(s: seq<char>, start: nat, end: nat): Option<real>
    requires end <= |s|
  {
    if start >= end || SignStop(s, start, end) >= end then Some(0.0)
    else FixedPointDecode(s, SignOf(s, start, end), SignStop(s, start, end), end)
  }

  /** The part of parseFractional after the sign, from `p` to `end`: the text
      up to the first '.' must be digits (none gives 0), accumulated in a
      uint32; the text after that '.' must be digits too; the value is
      sign * (integral + fraction). A '.' at the very end, or none at all,
      means no fraction. */
  function FixedPointDecode(s: seq<char>, sign: int, p: nat, end: nat): Option<real>
    requires sign == -1 || sign == 1
    requires p < end <= |s|
  {
    var d := FindDot(s, p, end);
    Combine(sign, IntegralDecode(s, p, d), FractionDecode(s, d + 1, end))
  }

  /** The text before the point: none gives 0, otherwise an unsigned decode. */
  function IntegralDecode(s: seq<char>, p: nat, d: nat): Option<uint32>
    requires d <= |s|
  {
    if d > p then UnsignedDecode(s, p, d) else Some(0)
  }

  /** Both parts must have decoded; the value is sign * (integral + fraction). */
  function Combine(sign: int, integral: Option<uint32>, fraction: Option<real>): Option<real>
    requires sign == -1 || sign == 1
  {
    if integral.None? || fraction.None? then None
    else Some(FixedPoint(sign, integral.value, fraction.value))
  }

  /** sign * (integral + fraction). */
  function FixedPoint(sign: int, integral: nat, fraction: real): real
    requires sign == -1 || sign == 1
  {
    ApplySignReal(sign, integral as real + fraction)
  }

  /** The digits after the point: all of them must be digits. */
  function FractionDecode(s: seq<char>, from: nat, end: nat): Option<real>
    requires end <= |s|
  {
    var f := Window(s, from, end);
    if AllDigits(f) then Some(FractionValue(f)) else None
  }

  /** The digit loop of parseFractional over [from, end): every character
      must be a digit; the sum is taken digit / divisor with the divisor
      growing tenfold per digit (unbounded here). */
  method ParseFractionDigits(s: seq<char>, from: nat, end: nat) returns (ok: bool, fraction: real)
    requires from <= end <= |s|
    ensures FractionDecode(s, from, end) == if ok then Some(fraction) else None
  {
    fraction := 0.0;
    var divisor: nat := 10;
    var i := from;
    while i < end
      invariant from <= i <= end
      invariant AllDigits(s[from..i])
      invariant divisor == Pow10(i - from + 1)
      invariant fraction == FractionValue(s[from..i])
    {
      if !IsDigit(s[i]) {
        assert Window(s, from, end)[i - from] == s[i];
        return false, 0.0;
      }
      FractionSnoc(s[from..i], s[i]);
      assert s[from..i + 1] == s[from..i] + [s[i]];
      fraction := fraction + DigitValue(s[i]) as real / divisor as real;
      divisor := divisor * 10;
      i := i + 1;
    }
    assert s[from..i] == Window(s, from, end);
    ok := true;
  }

  /** The '.' search of parseFractional. */
  method SeekDot(s: seq<char>, p: nat, end: nat) returns (d: nat)
    requires p <= end <= |s|
    ensures d == FindDot(s, p, end)
  {
    d := p;
    while d < end && s[d] != '.'
      invariant p <= d <= end
      invariant FindDot(s, d, end) == FindDot(s, p, end)
    {
      d := d + 1;
    }
  }

  /** The integral part of parseFractional, before the '.' at `d`. */
  method ParseIntegral(s: seq<char>, p: nat, d: nat) returns (ok: bool, integral: uint32)
    requires d <= |s|
    ensures IntegralDecode(s, p, d) == if ok then Some(integral) else None
  {
    integral := 0;
    ok := true;
    if d > p {
      ok, integral := ParseUnsignedInteger(s, p, d);
    }
  }

  /** The fraction part of parseFractional, after the '.' at `d`: read only
      when at least one character follows the point. */
  method ParseFraction(s: seq<char>, d: nat, end: nat) returns (ok: bool, fraction: real)
    requires d <= end <= |s|
    ensures FractionDecode(s, d + 1, end) == if ok then Some(fraction) else None
  {
    if d < end - 1 {
      ok, fraction := ParseFractionDigits(s, d + 1, end);
    } else {
      assert Window(s, d + 1, end) == [];
      ok, fraction := true, 0.0;
    }
  }

  /** parseFractional after the sign: the '.' search, the integral part and
      the fraction digits. */
  method ParseFixedPoint(s: seq<char>, sign: int, p: nat, end: nat) returns (ok: bool, value: real)
    requires sign == -1 || sign == 1
    requires p < end <= |s|
    ensures FixedPointDecode(s, sign, p, end) == if ok then Some(value) else None
  {
    var d := SeekDot(s, p, end);
    var integral;
    ok, integral := ParseIntegral(s, p, d);
    if !ok {
      return false, 0.0;
    }
    var fraction;
    ok, fraction := ParseFraction(s, d, end);
    if !ok {
      return false, 0.0;
    }
    value := FixedPoint(sign, integral, fraction);
    ok := true;
  }

  method ParseFractional(s: seq<char>, start: nat, end: nat) returns (ok: bool, value: real)
    requires end <= |s|
    ensures FractionalDecode(s, start, end) == if ok then Some(value) else None
  {
    if start >= end {
      return true, 0.0;
    }
    var sign, p := GetSign(s, start, end);
    if p >= end {
      return true, 0.0;
    }
    ok, value := ParseFixedPoint(s, sign, p, end);
  }

  // ---------------------------------------------------------------------
  // parseFloat

  predicate IsMarker(c: char) {
    c == 'e' || c == 'E'
  }

  /** The first exponent marker at or after `i` inside the window, or `end`. */
  function FindMarker(s: seq<char>, i: nat, end: nat): (e: nat)
    requires i <= end <= |s|
    ensures i <= e <= end
    ensures forall k :: i <= k < e ==> !IsMarker(s[k])
    ensures e < end ==> IsMarker(s[e])
    decreases end - i
  {
    if i == end || IsMarker(s[i]) then i else FindMarker(s, i + 1, end)
  }

  /** 10 raised to an integer power, as an exact real. */
  function TenPow(p: int): (r: real)
    ensures r > 0.0
    decreases if p < 0 then -p else p
  {
    if p == 0 then 1.0 else if p > 0 then 10.0 * TenPow(p - 1) else TenPow(p + 1) / 10.0
  }

  /** An empty window gives 0. A window whose first 'e'/'E' is missing or is
      its last character is a plain fractional number; otherwise it is a
      scientific number split at that marker. */
  function FloatDecode(s: seq<char>, start: nat, end: nat): Option<real>
    requires end <= |s|
  {
    if start >= end then Some(0.0)
    else if FindMarker(s, start, end) >= end - 1 then FractionalDecode(s, start, end)
    else ScientificDecode(s, start, FindMarker(s, start, end), end)
  }

  /** The mantissa is the fractional decode of the text before the marker at
      `e`, or 1 when the marker sits at index 0 of the buffer (the source tests
      the marker's index against 0, not against `start`); the exponent is the
      signed decode of the text after it; the value is mantissa * 10^exponent. */
  function ScientificDecode(s: seq<char>, start: nat, e: nat, end: nat): Option<real>
    requires start <= e < end <= |s|
  {
    var mantissa := if e > 0 then FractionalDecode(s, start, e) else Some(1.0);
    Scientific(mantissa, SignedDecode(s, e + 1, end))
  }

  /** Both parts must have decoded; the value is mantissa * 10^power. */
  function Scientific(mantissa: Option<real>, power: Option<int32>): Option<real> {
    if mantissa.None? || power.None? then None
    else Some(Scaled(mantissa.value, power.value))
  }

  /** m * 10^power. */
  function Scaled(m: real, power: int): real {
    m * TenPow(power)
  }

  /** The scaling loop: |power| multiplications by 10, or by 0.1 when the
      power is not positive. The loop counter is unbounded here; see
      ScaleAsWritten for the source's uint8_t counter. */
  method Scale(m: real, power: int) returns (r: real)
    ensures r == Scaled(m, power)
  {
    var abspower := if power > 0 then power else -power;
    r := m;
    var i := 0;
    while i < abspower
      invariant 0 <= i <= abspower
      invariant r == m * TenPow(if power > 0 then i else -i)
    {
      if power > 0 {
        r := r * 10.0;
      } else {
        r := r * 0.1;
      }
      i := i + 1;
    }
  }

  /** The source's scaling loop, whose counter is a uint8_t compared with
      the uint32 |power|: the counter wraps from 255 to 0. `fuel` bounds the
      number of iterations examined; None means the loop was still running
      when the fuel ran out. */
  function ScaleAsWritten(v: real, power: int, i: nat, fuel: nat): Option<real>
    requires i < 256
    decreases fuel
  {
    var abspower := if power > 0 then power else -power;
    if i >= abspower then Some(v)
    else if fuel == 0 then None
    else ScaleAsWritten(if power > 0 then v * 10.0 else v * 0.1, power, (i + 1) % 256, fuel - 1)
  }

  /** With |power| >= 256 the source's loop never ends: no amount of fuel
      brings it to an exit. */
  lemma {:induction false} ScaleAsWrittenNeverEnds(v: real, power: int, i: nat, fuel: nat)
    requires i < 256
    requires power >= 256 || power <= -256
    ensures ScaleAsWritten(v, power, i, fuel) == None
    decreases fuel
  {
    if fuel > 0 {
      ScaleAsWrittenNeverEnds(if power > 0 then v * 10.0 else v * 0.1, power, (i + 1) % 256, fuel - 1);
    }
  }

  method ParseFloat(s: seq<char>, start: nat, end: nat) returns (ok: bool, value: real)
    requires end <= |s|
    ensures FloatDecode(s, start, end) == if ok then Some(value) else None
  {
    if start >= end {
      return true, 0.0;
    }
    var e := start;
    while e < end && !IsMarker(s[e])
      invariant start <= e <= end
      invariant FindMarker(s, e, end) == FindMarker(s, start, end)
    {
      e := e + 1;
    }
    if e >= end - 1 {
      ok, value := ParseFractional(s, start, end);
    } else {
      ok, value := ParseScientific(s, start, e, end);
    }
  }

  /** parseFloat's branch for a marker at `e` before the last character. */
  method ParseScientific(s: seq<char>, start: nat, e: nat, end: nat) returns (ok: bool, value: real)
    requires start <= e < end <= |s|
    ensures ScientificDecode(s, start, e, end) == if ok then Some(value) else None
  {
    var mantissa := 1.0;
    if e > 0 {
      ok, mantissa := ParseFractional(s, start, e);
      if !ok {
        return false, 0.0;
      }
    }
    var power;
    ok, power := ParseSignedInteger(s, e + 1, end);
    if !ok {
      return false, 0.0;
    }
    value := Scale(mantissa, power);
  }
}
