/** Properties of the numeric decoders: what a well-formed literal decodes
    to, which windows are refused, and that a decoder reads nothing outside
    its window. */
module DecoderProps {
  import opened Options
  import opened Decimal
  import opened Decoders

  // ---------------------------------------------------------------------
  // A decoder reads only its window

  /** `t` holds the characters of `s` from `start` to `end`, moved up by `a`. */
  ghost predicate Embeds(t: seq<char>, a: nat, s: seq<char>, start: nat, end: nat)
    decreases end - start
  {
    a + end <= |t| && end <= |s| &&
    (start < end ==> t[a + start] == s[start] && Embeds(t, a, s, start + 1, end))
  }

  lemma {:induction false} EmbedsAt(t: seq<char>, a: nat, s: seq<char>, start: nat, end: nat, k: nat)
    requires Embeds(t, a, s, start, end) && start <= k < end
    ensures t[a + k] == s[k]
    decreases k - start
  {
    if start < k {
      EmbedsAt(t, a, s, start + 1, end, k);
    }
  }

  lemma {:induction false} EmbedsOf(t: seq<char>, a: nat, s: seq<char>, start: nat, end: nat)
    requires a + end <= |t| && end <= |s|
    requires forall k :: start <= k < end ==> t[a + k] == s[k]
    ensures Embeds(t, a, s, start, end)
    decreases end - start
  {
    if start < end {
      EmbedsOf(t, a, s, start + 1, end);
    }
  }

  /** A window inside an embedded window is embedded too. */
  lemma EmbedsInner(t: seq<char>, a: nat, s: seq<char>, start: nat, end: nat, i: nat, j: nat)
    requires Embeds(t, a, s, start, end) && start <= i && j <= end
    ensures Embeds(t, a, s, i, j)
  {
    forall k | i <= k < j
      ensures t[a + k] == s[k]
    {
      EmbedsAt(t, a, s, start, end, k);
    }
    EmbedsOf(t, a, s, i, j);
  }

  lemma {:induction false} CropShift(t: seq<char>, a: nat, s: seq<char>, i: nat, end: nat)
    requires i <= end && Embeds(t, a, s, i, end)
    ensures Crop(t, a + i, a + end) == a + Crop(s, i, end)
    decreases end - i
  {
    if i < end {
      EmbedsAt(t, a, s, i, end, i);
      EmbedsInner(t, a, s, i, end, i + 1, end);
      assert a + i + 1 == a + (i + 1);
      if IsJerk(s[i]) {
        CropShift(t, a, s, i + 1, end);
      }
    }
  }

  lemma WindowShift(t: seq<char>, a: nat, s: seq<char>, i: nat, j: nat)
    requires Embeds(t, a, s, i, j)
    ensures Window(t, a + i, a + j) == Window(s, i, j)
  {
    var wt, ws := Window(t, a + i, a + j), Window(s, i, j);
    forall k | 0 <= k < |ws|
      ensures wt[k] == ws[k]
    {
      EmbedsAt(t, a, s, i, j, i + k);
    }
  }

  lemma UnsignedShift(t: seq<char>, a: nat, s: seq<char>, i: nat, j: nat)
    requires Embeds(t, a, s, i, j)
    ensures UnsignedDecode(t, a + i, a + j) == UnsignedDecode(s, i, j)
  {
    WindowShift(t, a, s, i, j);
  }

  /** The sign and the start of the magnitude move with the window. */
  lemma SignShift(t: seq<char>, a: nat, s: seq<char>, start: nat, end: nat)
    requires start < end && Embeds(t, a, s, start, end)
    ensures SignOf(t, a + start, a + end) == SignOf(s, start, end)
    ensures SignStop(t, a + start, a + end) == a + SignStop(s, start, end)
  {
    EmbedsAt(t, a, s, start, end, start);
    EmbedsInner(t, a, s, start, end, start + SignLength(s, start, end), end);
    assert a + start + SignLength(s, start, end) == a + (start + SignLength(s, start, end));
    CropShift(t, a, s, start + SignLength(s, start, end), end);
  }

  /** parseSignedInteger reads nothing outside its window. */
  lemma SignedShift(t: seq<char>, a: nat, s: seq<char>, start: nat, end: nat)
    requires Embeds(t, a, s, start, end)
    ensures SignedDecode(t, a + start, a + end) == SignedDecode(s, start, end)
  {
    if start < end {
      SignShift(t, a, s, start, end);
      EmbedsInner(t, a, s, start, end, SignStop(s, start, end), end);
      UnsignedShift(t, a, s, SignStop(s, start, end), end);
    }
  }

  // ---------------------------------------------------------------------
  // Unsigned integers

  /** A window decodes exactly when every character in it is a digit. */
  lemma UnsignedDigitsIff(s: seq<char>, start: nat, end: nat)
    requires end <= |s|
    ensures UnsignedDecode(s, start, end).Some? <==> forall k :: start <= k < end ==> IsDigit(s[k])
  {
    var w := Window(s, start, end);
    if forall k :: start <= k < end ==> IsDigit(s[k]) {
      assert AllDigits(w);
    } else {
      var k :| start <= k < end && !IsDigit(s[k]);
      assert w[k - start] == s[k];
    }
  }

  /** The digit string of `n` decodes to `n` modulo 2^32: a round trip for
      every value below 2^32, wrap-around above. */
  lemma UnsignedOfDecimalString(n: nat)
    ensures UnsignedDecode(DecimalString(n), 0, |DecimalString(n)|) == Some(Mod32(n))
  {
    var s := DecimalString(n);
    assert Window(s, 0, |s|) == s;
    DecimalRoundTrip(n);
  }

  lemma UnsignedRoundTrip(n: nat)
    requires n < TwoTo32
    ensures UnsignedDecode(DecimalString(n), 0, |DecimalString(n)|) == Some(n)
  {
    UnsignedOfDecimalString(n);
    Mod32Small(n);
  }

  /** Up to nine digits never reach the uint32 wrap: the accumulated value
      is the digits' value exactly. */
  lemma UnsignedNineDigits(s: seq<char>, start: nat, end: nat)
    requires start <= end <= |s| && end - start <= 9
    requires forall k :: start <= k < end ==> IsDigit(s[k])
    ensures UnsignedDecode(s, start, end) == Some(DecimalValue(s[start..end]))
  {
    var w := Window(s, start, end);
    assert w == s[start..end];
    UnsignedDigitsIff(s, start, end);
    DecimalBound(w);
    Pow10Monotone(|w|, 9);
    Mod32Small(DecimalValue(w));
  }

  // ---------------------------------------------------------------------
  // Signed integers

  /** The sign prefixes getSign accepts: none, '-' or '+'. */
  predicate IsSignPrefix(p: seq<char>) {
    p == [] || p == ['-'] || p == ['+']
  }

  function PrefixSign(p: seq<char>): (sign: int)
    ensures sign == -1 || sign == 1
  {
    if p == ['-'] then -1 else 1
  }

  /** Cropping a run of digits that is followed by a non-cropped character
      (or by the window end) stops inside the run, and the rest of the run
      has the value of the whole run: only leading zeros are dropped. */
  lemma CropDigits(t: seq<char>, i: nat, j: nat, end: nat)
    requires i <= j <= end <= |t|
    requires AllDigits(t[i..j])
    requires j < end ==> !IsJerk(t[j])
    ensures i <= Crop(t, i, end) <= j
    ensures AllDigits(t[Crop(t, i, end)..j])
    ensures DecimalValue(t[Crop(t, i, end)..j]) == DecimalValue(t[i..j])
  {
    var c := Crop(t, i, end);
    assert c <= j;
    var z, r := t[i..c], t[c..j];
    assert t[i..j] == z + r;
    forall k | 0 <= k < |z|
      ensures z[k] == '0'
    {
      assert IsJerk(t[i + k]);
      assert IsDigit(t[i..j][k]);
    }
    forall k | 0 <= k < |r|
      ensures IsDigit(r[k])
    {
      assert r[k] == t[i..j][c - i + k];
    }
    LeadingZeros(z, r);
  }

  /** The text `t` = `p` `d` `rest`: a sign prefix, digits, and a rest that
      does not start with a sign. */
  lemma SignedText(t: seq<char>, p: seq<char>, d: seq<char>, rest: seq<char>)
    requires t == p + d + rest
    requires IsSignPrefix(p) && AllDigits(d)
    requires rest == [] || (rest[0] != '-' && rest[0] != '+')
    ensures SignLength(t, 0, |t|) == |p|
    ensures SignOf(t, 0, |t|) == PrefixSign(p)
    ensures forall k :: |p| <= k < |p| + |d| ==> IsDigit(t[k])
  {
    if p != [] {
      assert t[0] == p[0];
    } else if d != [] {
      assert t[0] == d[0];
    } else if rest != [] {
      assert t[0] == rest[0];
    }
    forall k | |p| <= k < |p| + |d|
      ensures IsDigit(t[k])
    {
      assert t[k] == d[k - |p|];
    }
  }

  /** A window of an optional sign and digits decodes to the digits' value,
      taken modulo 2^32, signed, and stored into an int32. */
  lemma SignedOfDigits(s: seq<char>, q: nat, end: nat)
    requires end <= |s| && q == SignLength(s, 0, end)
    requires forall k :: q <= k < end ==> IsDigit(s[k])
    ensures AllDigits(s[q..end])
    ensures SignedDecode(s, 0, end) == Some(Wrap32(ApplySign(SignOf(s, 0, end), Mod32(DecimalValue(s[q..end])))))
  {
    assert AllDigits(s[q..end]) by {
      forall k | 0 <= k < end - q
        ensures IsDigit(s[q..end][k])
      {
        assert s[q..end][k] == s[q + k];
      }
    }
    if end > 0 {
      CropDigits(s, q, end, end);
      var c := SignStop(s, 0, end);
      assert Window(s, c, end) == s[c..end];
    }
  }

  /** An optional sign followed by digits decodes to the digits' value,
      taken modulo 2^32, signed, and stored into an int32. */
  lemma SignedDigits(p: seq<char>, d: seq<char>)
    requires IsSignPrefix(p) && AllDigits(d)
    ensures SignedDecode(p + d, 0, |p + d|) == Some(Wrap32(ApplySign(PrefixSign(p), Mod32(DecimalValue(d)))))
  {
    assert p + d + [] == p + d;
    SignedText(p + d, p, d, []);
    SignedOfDigits(p + d, |p|, |p + d|);
  }

  /** The decimal text of an int32, with a '-' for negative values. */
  function IntegerText(x: int32): (s: seq<char>)
    ensures 1 <= |s|
  {
    if x < 0 then ['-'] + DecimalString(-(x as int)) else DecimalString(x)
  }

  /** Every int32 survives being written out and read back. */
  lemma IntegerRoundTrip(x: int32)
    ensures SignedDecode(IntegerText(x), 0, |IntegerText(x)|) == Some(x)
  {
    var n: nat := if x < 0 then -(x as int) else x;
    var p := if x < 0 then ['-'] else [];
    assert IntegerText(x) == p + DecimalString(n);
    SignedDigits(p, DecimalString(n));
    DecimalRoundTrip(n);
    Mod32Small(n);
    assert ApplySign(PrefixSign(p), n) == x;
    Wrap32OfInt32(x);
  }

  /** Values below 2^32 are kept by a uint32. */
  lemma Mod32Small(n: nat)
    requires n < TwoTo32
    ensures Mod32(n) == n
  {
  }

  /** Storing an int32 value into an int32 keeps it. */
  lemma Wrap32OfInt32(x: int32)
    ensures Wrap32(x) == x
  {
    if x < 0 {
      assert x % TwoTo32 == x + TwoTo32;
    }
  }

  /** A window is refused exactly when something after the sign and the
      cropped run is not a digit. */
  lemma SignedFailsIff(s: seq<char>, start: nat, end: nat)
    requires end <= |s|
    ensures SignedDecode(s, start, end).None? <==>
      start < end && exists k :: SignStop(s, start, end) <= k < end && !IsDigit(s[k])
  {
    if start < end {
      UnsignedDigitsIff(s, SignStop(s, start, end), end);
    }
  }

  /** When the window holds a character that is neither '0' nor ' ', the
      source's wrapping loop stops where `Crop` does, within as many steps. */
  lemma {:induction false} CropAsWrittenAgrees(buf: seq<char>, i: nat, end: nat, fuel: nat)
    requires i <= end <= 256 <= |buf|
    requires Crop(buf, i, end) < end && fuel >= Crop(buf, i, end) - i
    ensures CropAsWritten(buf, i, fuel) == Some(Crop(buf, i, end))
    decreases end - i
  {
    if IsJerk(buf[i]) {
      CropAsWrittenAgrees(buf, i + 1, end, fuel - 1);
    }
  }

  /** When every character from `i` to index 255 is '0' or ' ', the
      source's loop wraps to index 0 and stops at the first character there
      that is neither, which may lie before the window start `end`. */
  lemma {:induction false} CropAsWrittenWraps(buf: seq<char>, i: nat, end: nat, fuel: nat)
    requires 0 < end <= i < 256 <= |buf|
    requires forall k :: i <= k < 256 ==> IsJerk(buf[k])
    requires Crop(buf, 0, end) < end && fuel >= 256 - i + Crop(buf, 0, end)
    ensures CropAsWritten(buf, i, fuel) == Some(Crop(buf, 0, end))
    decreases 256 - i
  {
    if i == 255 {
      CropAsWrittenAgrees(buf, 0, end, fuel - 1);
    } else {
      CropAsWrittenWraps(buf, i + 1, end, fuel - 1);
    }
  }

  // ---------------------------------------------------------------------
  // Fractional numbers

  /** A window of an optional sign, digits, a point at `j` and more: the
      integral part is the digits' value modulo 2^32 and the fraction part is
      what follows the point. */
  lemma FractionalOfParts(s: seq<char>, q: nat, j: nat, end: nat)
    requires q <= j < end <= |s| && q == SignLength(s, 0, end)
    requires s[j] == '.'
    requires forall k :: q <= k < j ==> IsDigit(s[k])
    ensures AllDigits(s[q..j])
    ensures FractionalDecode(s, 0, end) ==
      Combine(SignOf(s, 0, end), Some(Mod32(DecimalValue(s[q..j]))), FractionDecode(s, j + 1, end))
  {
    assert AllDigits(s[q..j]) by {
      forall k | 0 <= k < j - q
        ensures IsDigit(s[q..j][k])
      {
        assert s[q..j][k] == s[q + k];
      }
    }
    CropDigits(s, q, j, end);
    var c := SignStop(s, 0, end);
    assert FindDot(s, c, end) == j;
    if c < j {
      assert Window(s, c, j) == s[c..j];
    }
    assert IntegralDecode(s, c, j) == Some(Mod32(DecimalValue(s[q..j])));
    FixedPointAt(s, SignOf(s, 0, end), c, j, end);
  }

  /** With the first point of the remainder at `j`, the remainder splits
      there into its integral and fraction parts. */
  lemma FixedPointAt(s: seq<char>, sign: int, c: nat, j: nat, end: nat)
    requires sign == -1 || sign == 1
    requires c < end <= |s| && c <= j <= end
    requires FindDot(s, c, end) == j
    ensures FixedPointDecode(s, sign, c, end) == Combine(sign, IntegralDecode(s, c, j), FractionDecode(s, j + 1, end))
  {
  }

  /** Writing an optional sign, digits, a point and more characters: the
      window decodes exactly when the characters after the point are all
      digits, to sign * (integral part modulo 2^32 + fraction). */
  lemma FractionalLiteral(t: seq<char>, p: seq<char>, di: seq<char>, df: seq<char>)
    requires t == p + di + ['.'] + df
    requires IsSignPrefix(p) && AllDigits(di)
    ensures FractionalDecode(t, 0, |t|) ==
      if AllDigits(df) then Some(FixedPoint(PrefixSign(p), Mod32(DecimalValue(di)), FractionValue(df))) else None
  {
    var rest := ['.'] + df;
    assert t == p + di + rest;
    SignedText(t, p, di, rest);
    var j := |p| + |di|;
    assert t[j] == '.';
    FractionalOfParts(t, |p|, j, |t|);
    assert Window(t, j + 1, |t|) == df;
  }

  /** A non-empty window that is not only a sign and cropped characters is
      refused exactly when a character between the crop and the first point
      is not a digit, or a character after that point is not a digit. */
  lemma FractionalFailsIff(s: seq<char>, start: nat, end: nat)
    requires end <= |s|
    ensures FractionalDecode(s, start, end).None? <==>
      start < end && SignStop(s, start, end) < end &&
      ((exists k :: SignStop(s, start, end) <= k < FindDot(s, SignStop(s, start, end), end) && !IsDigit(s[k])) ||
       (exists k :: FindDot(s, SignStop(s, start, end), end) < k < end && !IsDigit(s[k])))
  {
    if start < end && SignStop(s, start, end) < end {
      var p := SignStop(s, start, end);
      var d := FindDot(s, p, end);
      UnsignedDigitsIff(s, p, d);
      UnsignedDigitsIff(s, d + 1, end);
    }
  }

  /** A window of an optional sign and digits, with no point. */
  lemma FractionalOfDigits(s: seq<char>, q: nat, end: nat)
    requires q <= end <= |s| && q == SignLength(s, 0, end)
    requires forall k :: q <= k < end ==> IsDigit(s[k])
    ensures AllDigits(s[q..end])
    ensures FractionalDecode(s, 0, end) == Some(ApplySignReal(SignOf(s, 0, end), Mod32(DecimalValue(s[q..end])) as real))
  {
    assert AllDigits(s[q..end]) by {
      forall k | 0 <= k < end - q
        ensures IsDigit(s[q..end][k])
      {
        assert s[q..end][k] == s[q + k];
      }
    }
    if end > 0 {
      CropDigits(s, q, end, end);
      var c := SignStop(s, 0, end);
      if c < end {
        assert FindDot(s, c, end) == end;
        assert Window(s, c, end) == s[c..end];
        assert IntegralDecode(s, c, end) == Some(Mod32(DecimalValue(s[q..end])));
        assert FractionDecode(s, end + 1, end) == Some(0.0);
        FixedPointAt(s, SignOf(s, 0, end), c, end, end);
      }
    }
  }

  /** Without a point the window is a whole number. */
  lemma FractionalWhole(p: seq<char>, di: seq<char>)
    requires IsSignPrefix(p) && AllDigits(di)
    ensures FractionalDecode(p + di, 0, |p + di|) == Some(ApplySignReal(PrefixSign(p), Mod32(DecimalValue(di)) as real))
  {
    assert p + di + [] == p + di;
    SignedText(p + di, p, di, []);
    FractionalOfDigits(p + di, |p|, |p + di|);
  }

  /** The fraction never carries into the integral part: the magnitude lies
      in [integral, integral + 1). */
  lemma FixedPointBetween(sign: int, integral: nat, f: seq<char>)
    requires sign == -1 || sign == 1
    requires AllDigits(f)
    ensures sign == 1 ==> integral as real <= FixedPoint(sign, integral, FractionValue(f)) < integral as real + 1.0
    ensures sign == -1 ==> -(integral as real) - 1.0 < FixedPoint(sign, integral, FractionValue(f)) <= -(integral as real)
  {
    FractionBelowOne(f);
  }

  // ---------------------------------------------------------------------
  // Floating point numbers

  /** 10^k for natural k is the natural power of ten. */
  lemma {:induction false} TenPowNat(k: nat)
    ensures TenPow(k) == Pow10(k) as real
  {
    if k > 0 {
      TenPowNat(k - 1);
    }
  }

  /** 10^-k undoes 10^k. */
  lemma {:induction false} TenPowInverse(k: nat)
    ensures TenPow(-(k as int)) * TenPow(k) == 1.0
  {
    if k > 0 {
      TenPowInverse(k - 1);
      calc {
        TenPow(-(k as int)) * TenPow(k);
        (TenPow(-(k - 1)) / 10.0) * (10.0 * TenPow(k - 1));
        TenPow(-(k - 1)) * TenPow(k - 1);
      }
    }
  }

  /** A window without an exponent marker (or with one only as its last
      character) is read as a fractional number. */
  lemma FloatPlain(t: seq<char>)
    requires forall k :: 0 <= k < |t| - 1 ==> !IsMarker(t[k])
    ensures FloatDecode(t, 0, |t|) == FractionalDecode(t, 0, |t|)
  {
  }

  /** A window whose first marker at `e` is not its last character: the
      mantissa is the text before the marker read as a fractional number (1
      when the marker is the first character) and the exponent is the text
      after it read as a signed integer. */
  lemma FloatScientific(t: seq<char>, e: nat)
    requires e + 1 < |t| && IsMarker(t[e])
    requires forall k :: 0 <= k < e ==> !IsMarker(t[k])
    ensures FloatDecode(t, 0, |t|) ==
      Scientific(if e > 0 then FractionalDecode(t, 0, e) else Some(1.0), SignedDecode(t, e + 1, |t|))
  {
    MarkerAt(t, 0, e, |t|);
  }

  /** The first marker is the one with no marker before it. */
  lemma {:induction false} MarkerAt(s: seq<char>, i: nat, j: nat, end: nat)
    requires i <= j < end <= |s|
    requires forall k :: i <= k < j ==> !IsMarker(s[k])
    requires IsMarker(s[j])
    ensures FindMarker(s, i, end) == j
    decreases j - i
  {
    if i < j {
      MarkerAt(s, i + 1, j, end);
    }
  }

  /** The source's uint8_t scaling loop agrees with the scaling of the
      model whenever |power| < 256 and enough iterations are allowed. */
  lemma {:induction false} ScaleAsWrittenAgrees(v: real, power: int, i: nat, fuel: nat)
    requires -256 < power < 256
    requires i <= (if power > 0 then power else -power)
    requires fuel >= (if power > 0 then power else -power) - i
    ensures ScaleAsWritten(Scaled(v, if power > 0 then i else -(i as int)), power, i, fuel) == Some(Scaled(v, power))
    decreases fuel
  {
    var abspower := if power > 0 then power else -power;
    if i < abspower {
      var k := if power > 0 then i else -(i as int);
      var next := if power > 0 then i + 1 else -(i as int) - 1;
      assert (if power > 0 then Scaled(v, k) * 10.0 else Scaled(v, k) * 0.1) == Scaled(v, next);
      ScaleAsWrittenAgrees(v, power, i + 1, fuel - 1);
    }
  }

  // ---------------------------------------------------------------------
  // Worked examples: the values of the project's own test lines and a few
  // edge cases

  lemma UnsignedLeadingZerosExample()
    ensures UnsignedDecode("007", 0, 3) == Some(7)
  {
    assert Window("007", 0, 3) == "007";
    assert DecimalValue("007") == 7 by {
      assert "007"[..2] == "00" && "00"[..1] == "0" && "0"[..0] == [];
    }
    Mod32Small(7);
  }

  lemma UnsignedRejectsExample()
    ensures UnsignedDecode("1a", 0, 2) == None
    ensures UnsignedDecode("", 0, 0) == Some(0)
  {
    UnsignedDigitsIff("1a", 0, 2);
    assert !IsDigit("1a"[1]);
    assert Window("", 0, 0) == [];
  }

  lemma SignedPositiveExample()
    ensures SignedDecode("10", 0, 2) == Some(10)
  {
    SignedDigits([], "10");
    assert [] + "10" == "10";
    assert DecimalValue("10") == 10 by {
      assert "10"[..1] == "1" && "1"[..0] == [];
    }
    Mod32Small(10);
    assert ApplySign(PrefixSign([]), 10) == 10;
    Wrap32OfInt32(10);
  }

  lemma SignedNegativeExample()
    ensures SignedDecode("-42", 0, 3) == Some(-42)
  {
    SignedDigits("-", "42");
    assert "-" + "42" == "-42";
    assert DecimalValue("42") == 42 by {
      assert "42"[..1] == "4" && "4"[..0] == [];
    }
    Mod32Small(42);
    assert ApplySign(PrefixSign("-"), 42) == -42;
    Wrap32OfInt32(-42);
  }

  /** Only one sign is taken: a second one is not a digit. */
  lemma SignedTwoSignsExample()
    ensures SignedDecode("--5", 0, 3) == None
  {
    assert SignStop("--5", 0, 3) == 1;
    SignedFailsIff("--5", 0, 3);
  }

  lemma FractionalOneExample()
    ensures FractionalDecode("1.0", 0, 3) == Some(1.0)
  {
    FractionalLiteral("1.0", [], "1", "0");
    assert PrefixSign([]) == 1;
    assert DecimalValue("1") == 1 by { assert "1"[..0] == []; }
    Mod32Small(1);
    assert FractionValue("0") == 0.0 by { assert "0"[1..] == []; }
    assert FixedPoint(1, 1, 0.0) == 1.0;
  }

  lemma FractionalFiveExample()
    ensures FractionalDecode("5.0", 0, 3) == Some(5.0)
  {
    FractionalLiteral("5.0", [], "5", "0");
    assert PrefixSign([]) == 1;
    assert DecimalValue("5") == 5 by { assert "5"[..0] == []; }
    Mod32Small(5);
    assert FractionValue("0") == 0.0 by { assert "0"[1..] == []; }
    assert FixedPoint(1, 5, 0.0) == 5.0;
  }

  lemma FractionalQuarterExample()
    ensures FractionalDecode("1.25", 0, 4) == Some(1.25)
  {
    FractionalLiteral("1.25", [], "1", "25");
    assert PrefixSign([]) == 1;
    assert DecimalValue("1") == 1 by { assert "1"[..0] == []; }
    Mod32Small(1);
    assert FractionValue("5") == 0.5 by { assert "5"[1..] == []; }
    assert FractionValue("25") == 0.25 by { assert "25"[1..] == "5"; }
    assert FixedPoint(1, 1, 0.25) == 1.25;
  }

  lemma FractionalNegativeExample()
    ensures FractionalDecode("-0.5", 0, 4) == Some(-0.5)
  {
    FractionalLiteral("-0.5", "-", "0", "5");
    assert PrefixSign("-") == -1;
    assert DecimalValue("0") == 0 by { assert "0"[..0] == []; }
    Mod32Small(0);
    assert FractionValue("5") == 0.5 by { assert "5"[1..] == []; }
    assert FixedPoint(-1, 0, 0.5) == -0.5;
  }

  /** A second point makes the fraction part malformed. */
  lemma FractionalTwoPointsExample()
    ensures FractionalDecode("1.2.3", 0, 5) == None
  {
    FractionalLiteral("1.2.3", [], "1", "2.3");
    assert !IsDigit("2.3"[1]);
  }

  lemma SignedDigitExample(c: char)
    requires IsDigit(c)
    ensures SignedDecode([c], 0, 1) == Some(DigitValue(c) as int32)
  {
    SignedDigits([], [c]);
    assert [] + [c] == [c];
    assert DecimalValue([c]) == DigitValue(c) by { assert [c][..0] == []; }
    Mod32Small(DigitValue(c));
    Wrap32OfInt32(DigitValue(c) as int32);
  }

  lemma FloatHundredMantissa()
    ensures FractionalDecode("1E2", 0, 1) == Some(1.0)
  {
    FractionalOfDigits("1E2", 0, 1);
    assert "1E2"[0..1] == "1";
    assert DecimalValue("1") == 1 by { assert "1"[..0] == []; }
    Mod32Small(1);
  }

  lemma FloatHundredPower()
    ensures SignedDecode("1E2", 2, 3) == Some(2)
  {
    SignedShift("1E2", 2, "2", 0, 1);
    SignedDigitExample('2');
  }

  lemma FloatHundredExample()
    ensures FloatDecode("1E2", 0, 3) == Some(100.0)
  {
    FloatHundredMantissa();
    FloatHundredPower();
    FloatScientific("1E2", 1);
    TenPowNat(2);
    assert Scaled(1.0, 2) == 100.0;
  }

  /** A marker at the start of the text stands for a mantissa of 1. */
  lemma FloatBareExponentExample()
    ensures FloatDecode("e3", 0, 2) == Some(1000.0)
  {
    SignedShift("e3", 1, "3", 0, 1);
    SignedDigitExample('3');
    FloatScientific("e3", 0);
    TenPowNat(3);
    assert Scaled(1.0, 3) == 1000.0;
  }

  /** A marker as the last character is not a marker: the whole text goes to
      the fixed-point decoder, which refuses the letter. */
  lemma FloatTrailingMarkerExample()
    ensures FloatDecode("5e", 0, 2) == None
    ensures FloatDecode("", 0, 0) == Some(0.0)
  {
    FloatPlain("5e");
    assert SignStop("5e", 0, 2) == 0;
    assert FindDot("5e", 0, 2) == 2;
    UnsignedDigitsIff("5e", 0, 2);
    assert !IsDigit("5e"[1]);
    FloatPlain("");
  }

  /** The same text after one more leading character decodes differently
      when it starts with a marker: "e3" is 1000, but the window "e3" inside
      "xe3" is 0 (an empty mantissa, times 10^3). */
  lemma MarkerAtWindowStartExample()
    ensures FloatDecode("e3", 0, 2) == Some(1000.0)
    ensures FloatDecode("xe3", 1, 3) == Some(0.0)
  {
    FloatBareExponentExample();
    assert FindMarker("xe3", 1, 3) == 1;
    assert FractionalDecode("xe3", 1, 1) == Some(0.0);
    SignedShift("xe3", 2, "3", 0, 1);
    SignedDigitExample('3');
  }
}
