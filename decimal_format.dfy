/** How `StringStreamBase` renders a `Decimal`: the magnitude of the numerator
    is split into an integral and a fractional part, the fraction is rounded
    to the stream's precision (carrying into the integral part when it rounds
    up to a whole unit), and the two parts are written with `put_integral`.
    Everything is integer arithmetic. */
module DecimalFormat {
  import opened Ints
  import opened Decimals
  import opened DigitText

  /** The stream's `precision_` is an int8 clamped from above to 9. */
  predicate ValidPrecision(p: int) {
    -128 <= p <= 9
  }

  /** `precision_power_` as the `operator<<(Precision)` loop computes it:
      ten multiplied in `precision_` times, so 1 for a non-positive precision. */
  function PrecisionPower(p: int): (r: nat)
    ensures r >= 1
  {
    if p <= 0 then 1 else Pow10(p)
  }

  datatype Parts = Parts(integral: int, fractional: int)

  /** `divide_and_round(a, b)`: a / b rounded to the nearest integer, halves
      upward (for the source's non-negative a). */
  function DivideAndRound(a: int, b: int): (r: int)
    requires a >= 0 && b > 0
    ensures r >= 0 && r * b <= a + b / 2 < r * b + b
  {
    DivLe(a + b / 2, b);
    (a + b / 2) / b
  }

  /** The two numbers `put_decimal(Decimal)` hands to `put_decimal(int64, int64)`
      for a numerator of magnitude m at precision p. `stored_pow10(k)` is 10^k. */
  function RoundedParts(m: nat, p: int): Parts
    requires ValidPrecision(p)
  {
    var integral := m / MultFactor;
    var fractional := m % MultFactor;
    if p >= MultPow then
      Parts(integral, fractional * Pow10(p - MultPow))
    else
      var rounded := DivideAndRound(fractional, Pow10(MultPow - p));
      if rounded >= PrecisionPower(p) then Parts(integral + 1, rounded - PrecisionPower(p))
      else Parts(integral, rounded)
  }

  /** `put_decimal(int64, int64)`'s fraction: a '.' and the fraction padded to
      `precision_` digits, with trailing zeros removed unless the stream fills
      zeros after the point; nothing at all for a zero fraction without fill. */
  function FractionText(fractional: int, p: int, fillAfterPoint: bool): seq<char>
  {
    if fractional != 0 || fillAfterPoint then "." + IntegralText(fractional, p, !fillAfterPoint)
    else ""
  }

  /** What `put_decimal(Decimal d, fill_zeroes)` appends. */
  function DecimalText(n: int, p: int, fillAfterPoint: bool, fill: int): seq<char>
    requires ValidPrecision(p)
  {
    var parts := RoundedParts(Abs(n), p);
    (if n < 0 then "-" else "")
      + IntegralText(parts.integral, fill, false)
      + FractionText(parts.fractional, p, fillAfterPoint)
  }

  // ---------------------------------------------------------------- arithmetic helpers

  lemma DivAddMultiple(k: int, b: int, x: int)
    requires b > 0
    ensures (k * b + x) / b == k + x / b
  {
    var q, r := x / b, x % b;
    assert k * b + x == (k + q) * b + r;
    DivUnique(k * b + x, b, k + q, r);
  }

  /** The rounded fraction never exceeds one whole unit at precision p. */
  lemma RoundedBound(f: int, P: nat, b: nat)
    requires b >= 1 && 0 <= f < P * b
    ensures 0 <= (f + b / 2) / b <= P
  {
    var q := (f + b / 2) / b;
    DivLe(f + b / 2, b);
    if q > P {
      MulLe(P + 1, q, b);
    }
  }

  lemma SplitUnits(m: nat)
    ensures m == (m / MultFactor) * MultFactor + m % MultFactor
    ensures 0 <= m % MultFactor < MultFactor && m / MultFactor >= 0
  {
  }

  // ---------------------------------------------------------------- rounding

  /** Below the Decimal's own seven digits the fraction is rounded half up
      (on the magnitude): integral * 10^p + fractional is m / 10^(7-p)
      rounded to nearest, and the fraction stays below one unit. */
  lemma RoundedPartsBelowMultPow(m: nat, p: int)
    requires 0 <= p < MultPow
    ensures var parts := RoundedParts(m, p);
      var b := Pow10(MultPow - p);
      && 0 <= parts.fractional < PrecisionPower(p)
      && parts.integral * Pow10(p) + parts.fractional == (m + b / 2) / b
  {
    var b := Pow10(MultPow - p);
    var P := Pow10(p);
    Pow10Add(p, MultPow - p);
    assert Pow10(MultPow) == MultFactor by {
      Pow10Values();
    }
    assert PrecisionPower(p) == P;
    CarrySplit(m, P, b);
  }

  /** The rounding with carry, over plain integers: the magnitude split at
      `P * b`, the low part rounded to a multiple of `b`, and a carry when it
      reaches `P`. */
  lemma CarrySplit(m: nat, P: nat, b: nat)
    requires P >= 1 && b >= 1
    ensures var I, F := m / (P * b), m % (P * b);
      var q := (F + b / 2) / b;
      var parts := if q >= P then Parts(I + 1, q - P) else Parts(I, q);
      && 0 <= parts.fractional < P
      && parts.integral * P + parts.fractional == (m + b / 2) / b
  {
    var I, F := m / (P * b), m % (P * b);
    assert m + b / 2 == (I * P) * b + (F + b / 2) by {
      assert m == I * (P * b) + F;
      assert I * (P * b) == (I * P) * b;
    }
    DivAddMultiple(I * P, b, F + b / 2);
    RoundedBound(F, P, b);
    var q := (F + b / 2) / b;
    if q >= P {
      assert (I + 1) * P == I * P + P;
    }
  }

  /** At precision 7 and above the fraction is exact, scaled up by 10^(p-7). */
  lemma RoundedPartsAboveMultPow(m: nat, p: int)
    requires MultPow <= p <= 9
    ensures var parts := RoundedParts(m, p);
      && parts.integral == m / MultFactor
      && parts.fractional == (m % MultFactor) * Pow10(p - MultPow)
      && 0 <= parts.fractional < PrecisionPower(p)
  {
    var k := p - MultPow;
    Pow10Add(MultPow, k);
    Pow10Values();
    var F := m % MultFactor;
    MulLe(F, MultFactor - 1, Pow10(k));
    assert (MultFactor - 1) * Pow10(k) < MultFactor * Pow10(k);
  }

  /** A negative precision leaves precision_power_ at 1 and the divisor above
      10^7, so the fraction always rounds to 0: the integral part is the
      magnitude truncated, without rounding. */
  lemma RoundedPartsNegativePrecision(m: nat, p: int)
    requires -128 <= p < 0
    ensures RoundedParts(m, p) == Parts(m / MultFactor, 0)
  {
    var b := Pow10(MultPow - p);
    Pow10Monotone(MultPow + 1, MultPow - p);
    Pow10Values();
    assert Pow10(MultPow + 1) == 100_000_000;
    var F := m % MultFactor;
    DivUnique(F + b / 2, b, 0, F + b / 2);
  }

  lemma RoundedPartsNonNegative(m: nat, p: int)
    requires ValidPrecision(p)
    ensures RoundedParts(m, p).integral >= 0 && RoundedParts(m, p).fractional >= 0
  {
    if p < 0 {
      RoundedPartsNegativePrecision(m, p);
    } else if p < MultPow {
      RoundedPartsBelowMultPow(m, p);
    } else {
      RoundedPartsAboveMultPow(m, p);
    }
  }

  // ---------------------------------------------------------------- fraction text

  /** With zero-fill on, exactly `precision_` digits follow the point and they
      read as the fraction. */
  lemma FractionTextFilled(f: nat, p: nat)
    requires 1 <= p && f < Pow10(p)
    ensures var t := FractionText(f, p, true);
      && |t| == p + 1 && t[0] == '.'
      && AllDigits(t[1..]) && ValueOf(t[1..]) == f
  {
    var t := FractionText(f, p, true);
    assert t[1..] == IntegralText(f, p, false);
    FractionCoreShort(f, p);
    IntegralTextPadded(f, p);
    PaddedValue(f, p);
  }

  /** Without fill, a nonzero fraction keeps its leading zeros and loses its
      trailing ones: the digits d satisfy value(d) * 10^(p - |d|) == f. */
  lemma FractionTextUnfilled(f: nat, p: nat)
    requires 1 <= p && 0 < f < Pow10(p)
    ensures var t := FractionText(f, p, false);
      && 2 <= |t| <= p + 1 && t[0] == '.'
      && AllDigits(t[1..]) && t[|t| - 1] != '0'
      && ValueOf(t[1..]) * Pow10(p + 1 - |t|) == f
  {
    var t := FractionText(f, p, false);
    var digits := IntegralText(f, p, true);
    var padded := IntegralText(f, p, false);
    assert t == "." + digits && t[1..] == digits;
    assert |padded| == p by {
      FractionCoreShort(f, p);
      IntegralTextPadded(f, p);
    }
    assert && digits != [] && AllDigits(digits) && digits[|digits| - 1] != '0'
      && |digits| <= |padded| && ValueOf(digits) * Pow10(|padded| - |digits|) == f by {
      StrippedValue(f, p);
    }
    assert p + 1 - |t| == p - |digits|;
  }

  /** A fraction below 10^p has a text of at most p characters. */
  lemma FractionCoreShort(f: nat, p: nat)
    requires f < Pow10(p)
    ensures |SignedText(f)| <= p || (f == 0 && p == 0)
  {
    DigitsLength(f, p);
  }

  lemma FractionTextZero(p: int)
    ensures FractionText(0, p, false) == ""
  {
  }

  // ---------------------------------------------------------------- whole text

  /** The text starts with '-' exactly when the numerator is negative; so a
      tiny negative value that rounds to zero prints as "-0". */
  lemma DecimalTextSign(n: int, p: int, fillAfterPoint: bool, fill: int)
    requires ValidPrecision(p)
    ensures var t := DecimalText(n, p, fillAfterPoint, fill);
      t != [] && (t[0] == '-' <==> n < 0)
  {
    var parts := RoundedParts(Abs(n), p);
    RoundedPartsNonNegative(Abs(n), p);
    var it := IntegralText(parts.integral, fill, false);
    IntegralTextPadded(parts.integral, fill);
    SignedTextShape(parts.integral);
    assert it != [] && it[0] != '-' by {
      var core := SignedText(parts.integral);
      if |it| > |core| {
        assert it[0] == '0';
      } else {
        assert it == core;
      }
    }
    var t := DecimalText(n, p, fillAfterPoint, fill);
    if n < 0 {
      assert t[0] == '-';
    } else {
      assert t[0] == it[0];
    }
  }

  /** The documented rounding example: 1.9999999 at precision 6 prints "2". */
  lemma DecimalTextCarryExample()
    ensures DecimalText(19_999_999, 6, false, 0) == "2"
  {
    Pow10Values();
    assert RoundedParts(19_999_999, 6) == Parts(2, 0);
  }

  lemma DecimalTextFractionExamples()
    ensures DecimalText(13_000_000, 6, false, 0) == "1.3"
    ensures DecimalText(-13_000_000, 6, false, 0) == "-1.3"
  {
    Pow10Values();
    assert RoundedParts(13_000_000, 6) == Parts(1, 300_000);
    FractionTextExample();
  }

  lemma DecimalTextNegativeZeroExample()
    ensures DecimalText(-1, 6, false, 0) == "-0"
  {
    Pow10Values();
    assert RoundedParts(1, 6) == Parts(0, 0);
  }

  lemma DecimalTextFillExamples()
    ensures DecimalText(50_000_000, 3, true, 0) == "5.000"
    ensures DecimalText(50_000_000, 0, true, 0) == "5.0"
  {
    Pow10Values();
    assert RoundedParts(50_000_000, 3) == Parts(5, 0);
    assert RoundedParts(50_000_000, 0) == Parts(5, 0);
    assert IntegralText(0, 3, false) == "000";
  }

  lemma DecimalTextLowPrecisionExamples()
    ensures DecimalText(15_000_000, 0, false, 0) == "2"
    ensures DecimalText(19_000_000, -1, false, 0) == "1"
  {
    Pow10Values();
    assert RoundedParts(15_000_000, 0) == Parts(2, 0);
    RoundedPartsNegativePrecision(19_000_000, -1);
  }

  lemma FractionTextExample()
    ensures FractionText(300_000, 6, false) == ".3"
  {
    DigitsExample();
    StripExample();
    assert SignedText(300_000) == "300000";
    assert Padded(300_000, 6) == "300000" by {
      assert Zeros(6 - 6) == [];
    }
    assert IntegralText(300_000, 6, true) == "3";
  }

  lemma DigitsExample()
    ensures Digits(300_000) == "300000"
  {
    SplitChunk3(300_000);
    SplitChunk3(300);
    assert Chunk3(0) == "000" && Chunk3(300) == "300";
    assert Digits(0) == [];
  }

  lemma StripExample()
    ensures StripTrailingZeros("300000") == "3"
  {
    assert "300"[..2] == "30" && "30"[..1] == "3";
    assert "300000"[..5] == "30000" && "30000"[..4] == "3000" && "3000"[..3] == "300";
    assert StripTrailingZeros("300") == "3";
    assert StripTrailingZeros("3000") == StripTrailingZeros("300");
    assert StripTrailingZeros("30000") == StripTrailingZeros("3000");
    assert StripTrailingZeros("300000") == StripTrailingZeros("30000");
  }
}
