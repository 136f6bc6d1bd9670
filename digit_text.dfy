/** The decimal text that `StringStreamBase::put_integral_impl` produces,
    as specification functions, with the facts its backward chunk writer and
    the fraction printer rely on. */
module DigitText {
  import opened Ints

  predicate IsDigit(c: char) {
    '0' <= c <= '9'
  }

  predicate AllDigits(s: seq<char>) {
    forall i :: 0 <= i < |s| ==> IsDigit(s[i])
  }

  function DigitChar(k: int): (c: char)
    requires 0 <= k < 10
    ensures IsDigit(c)
  {
    ('0' as int + k) as char
  }

  function DigitValue(c: char): (k: int)
    requires IsDigit(c)
    ensures 0 <= k < 10 && DigitChar(k) == c
  {
    c as int - '0' as int
  }

  /** Decimal digits of u, most significant first, without leading zeros;
      empty for 0 (the caller writes "0" itself). */
  function Digits(u: nat): (s: seq<char>)
    ensures AllDigits(s)
    ensures u == 0 <==> s == []
    ensures u > 0 ==> s[0] != '0'
  {
    if u == 0 then [] else Digits(u / 10) + [DigitChar(u % 10)]
  }

  /** The number a string of digits denotes. */
  function ValueOf(s: seq<char>): nat
    requires AllDigits(s)
  {
    if s == [] then 0 else 10 * ValueOf(s[..|s| - 1]) + DigitValue(s[|s| - 1])
  }

  /** The 3-character entry k of `DigitTables::rev_3digit_lut`: k in decimal,
      zero-padded to three characters. */
  function Chunk3(k: int): (s: seq<char>)
    requires 0 <= k < 1000
    ensures |s| == 3 && AllDigits(s)
  {
    [DigitChar(k / 100), DigitChar(k / 10 % 10), DigitChar(k % 10)]
  }

  /** The 2-character entry k of `DigitTables::rev_2digit_lut`. */
  function Chunk2(k: int): (s: seq<char>)
    requires 0 <= k < 100
    ensures |s| == 2 && AllDigits(s)
  {
    [DigitChar(k / 10), DigitChar(k % 10)]
  }

  function Zeros(n: int): (s: seq<char>)
    ensures |s| == (if n > 0 then n else 0)
    ensures forall i :: 0 <= i < |s| ==> s[i] == '0'
    decreases n
  {
    if n <= 0 then [] else Zeros(n - 1) + ['0']
  }

  /** Drops every trailing '0' character. */
  function StripTrailingZeros(s: seq<char>): seq<char>
  {
    if s != [] && s[|s| - 1] == '0' then StripTrailingZeros(s[..|s| - 1]) else s
  }

  /** Text of x with its sign and no leading zeros; "0" for zero. */
  function SignedText(x: int): seq<char>
  {
    if x == 0 then "0" else (if x < 0 then "-" else "") + Digits(Abs(x))
  }

  /** What `put_integral_impl(x, fill_zeroes, remove_trailing_zeroes)` appends:
      the signed text, left-padded with '0' to `fill` characters (in front of
      the '-' for a negative x), and optionally without trailing '0's. */
  function IntegralText(x: int, fill: int, strip: bool): seq<char>
  {
    if strip then StripTrailingZeros(Padded(x, fill)) else Padded(x, fill)
  }

  function Padded(x: int, fill: int): seq<char>
  {
    Zeros(fill - |SignedText(x)|) + SignedText(x)
  }

  /** Reads back an optionally signed string of digits. */
  function ParseSigned(s: seq<char>): int
    requires s != [] && (if s[0] == '-' then AllDigits(s[1..]) else AllDigits(s))
  {
    if s[0] == '-' then -(ValueOf(s[1..]) as int) else ValueOf(s)
  }

  // ------------------------------------------------------------ digit strings

  lemma {:induction false} DigitsRoundTrip(u: nat)
    ensures ValueOf(Digits(u)) == u
  {
    if u > 0 {
      DigitsRoundTrip(u / 10);
      var s := Digits(u);
      assert s[..|s| - 1] == Digits(u / 10);
    }
  }

  /** A digit string without a leading zero is the text of its value: the
      canonical text is unique. */
  lemma {:induction false} DigitsCanonical(s: seq<char>)
    requires AllDigits(s) && (s != [] ==> s[0] != '0')
    ensures Digits(ValueOf(s)) == s
  {
    if s != [] {
      var init := s[..|s| - 1];
      var last := DigitValue(s[|s| - 1]);
      assert AllDigits(init);
      if init == [] {
        assert ValueOf(init) == 0;
        assert last != 0;
      } else {
        assert init[0] == s[0];
        DigitsCanonical(init);
        ValueOfNonzero(init);
      }
      var u := ValueOf(s);
      assert u == 10 * ValueOf(init) + last;
      assert u / 10 == ValueOf(init) && u % 10 == last;
    }
  }

  lemma ValueOfNonzero(s: seq<char>)
    requires AllDigits(s) && s != [] && s[0] != '0'
    ensures ValueOf(s) > 0
  {
    ValueOfAtLeastFirst(s);
  }

  lemma {:induction false} ValueOfAtLeastFirst(s: seq<char>)
    requires AllDigits(s) && s != []
    ensures ValueOf(s) >= DigitValue(s[0])
  {
    if |s| > 1 {
      var init := s[..|s| - 1];
      assert init[0] == s[0];
      ValueOfAtLeastFirst(init);
    }
  }

  /** u < 10^k exactly when u has at most k digits. */
  lemma {:induction false} DigitsLength(u: nat, k: nat)
    ensures |Digits(u)| <= k <==> u < Pow10(k)
  {
    if u > 0 && k > 0 {
      DigitsLength(u / 10, k - 1);
      assert u < Pow10(k) <==> u / 10 < Pow10(k - 1);
    }
  }

  lemma DivDiv(u: nat, a: nat, b: nat)
    requires a > 0 && b > 0
    ensures u / a / b == u / (a * b)
  {
    var q, r := u / a, u % a;
    var q2, r2 := q / b, q % b;
    assert u == q2 * (a * b) + (r2 * a + r) by {
      assert u == q * a + r;
      assert q == q2 * b + r2;
      assert q * a == (q2 * b + r2) * a;
    }
    MulLe(r2, b - 1, a);
    assert (b - 1) * a == a * b - a;
    DivUnique(u, a * b, q2, r2 * a + r);
  }

  /** One step of the first writer loop: a number of three or more digits is the
      text of its value divided by 1000 followed by a 3-digit chunk. */
  lemma SplitChunk3(u: nat)
    requires u >= 100
    ensures Digits(u) == Digits(u / 1000) + Chunk3(u % 1000)
  {
    var d1, d2 := u / 10, u / 100;
    Chunk3Digits(u);
    assert Digits(u) == Digits(d1) + [DigitChar(u % 10)];
    assert Digits(d1) == Digits(d2) + [DigitChar(d1 % 10)];
    assert Digits(d2) == Digits(u / 1000) + [DigitChar(d2 % 10)];
  }

  /** The three low digits of u, read off by repeated division by ten, are
      the digits of u mod 1000. */
  lemma Chunk3Digits(u: nat)
    ensures u / 10 / 10 == u / 100 && u / 100 / 10 == u / 1000
    ensures var c := u % 1000;
      u / 100 % 10 == c / 100 && u / 10 % 10 == c / 10 % 10 && u % 10 == c % 10
  {
    DivDiv(u, 10, 10);
    DivDiv(u, 100, 10);
    var a, x, y, z := u / 1000, u / 100 % 10, u / 10 % 10, u % 10;
    assert u / 10 == 10 * (u / 100) + y;
    assert u / 100 == 10 * a + x;
    assert u == 1000 * a + (100 * x + 10 * y + z);
    DivUnique(u, 1000, a, 100 * x + 10 * y + z);
    var c := u % 1000;
    DivUnique(c, 100, x, 10 * y + z);
    DivUnique(c, 10, 10 * x + y, z);
    DivUnique(10 * x + y, 10, x, y);
  }

  /** One step of the second writer loop. */
  lemma SplitChunk2(u: nat)
    requires u >= 10
    ensures Digits(u) == Digits(u / 100) + Chunk2(u % 100)
  {
    DivDiv(u, 10, 10);
    var d1 := u / 10;
    assert Digits(u) == Digits(d1) + [DigitChar(u % 10)];
    assert Digits(d1) == Digits(u / 100) + [DigitChar(d1 % 10)];
    var c := u % 100;
    assert u == 100 * (u / 100) + c;
    assert d1 % 10 == c / 10 && u % 10 == c % 10;
  }

  // ------------------------------------------------------------ signed text

  lemma SignedTextShape(x: int)
    ensures var t := SignedText(x);
      && t != []
      && (t[0] == '-' <==> x < 0)
      && (x == 0 <==> t == "0")
      && (x != 0 ==> t[0] != '0')
      && AllDigits(if x < 0 then t[1..] else t)
  {
    var t := SignedText(x);
    if x < 0 {
      assert t[1..] == Digits(-x);
    }
  }

  lemma SignedTextRoundTrip(x: int)
    ensures SignedText(x) != [] && ParseSigned(SignedText(x)) == x
  {
    SignedTextShape(x);
    var t := SignedText(x);
    DigitsRoundTrip(Abs(x));
    if x < 0 {
      assert t[1..] == Digits(-x);
    } else if x > 0 {
      assert t == Digits(x);
    } else {
      assert t[..0] == [];
    }
  }

  /** Without a fill wider than the text, `put_integral` emits exactly the
      canonical text: a '-' iff x < 0, no leading zeros, "0" for zero. */
  lemma IntegralTextCanonical(x: int, fill: int)
    requires fill <= |SignedText(x)|
    ensures IntegralText(x, fill, false) == SignedText(x)
  {
    assert Zeros(fill - |SignedText(x)|) == [];
  }

  /** Zero-fill pads on the left to max(fill, length) characters. */
  lemma IntegralTextPadded(x: int, fill: int)
    ensures var t := IntegralText(x, fill, false);
      var core := SignedText(x);
      && |t| == (if fill > |core| then fill else |core|)
      && t[|t| - |core|..] == core
      && forall i :: 0 <= i < |t| - |core| ==> t[i] == '0'
  {
    var core := SignedText(x);
    var t := IntegralText(x, fill, false);
    assert t == Zeros(fill - |core|) + core;
  }

  /** Leading zeros do not change the value of a digit string. */
  lemma {:induction false} ValueOfLeadingZeros(n: int, s: seq<char>)
    requires AllDigits(s)
    ensures AllDigits(Zeros(n) + s) && ValueOf(Zeros(n) + s) == ValueOf(s)
  {
    var z := Zeros(n);
    var t := z + s;
    assert AllDigits(t) by {
      forall i | 0 <= i < |t| ensures IsDigit(t[i]) {
        if i >= |z| { assert t[i] == s[i - |z|]; }
      }
    }
    if s == [] {
      assert t == z;
      ValueOfZeros(n);
    } else {
      var init := s[..|s| - 1];
      ValueOfLeadingZeros(n, init);
      assert t[..|t| - 1] == z + init;
      assert t[|t| - 1] == s[|s| - 1];
    }
  }

  lemma {:induction false} ValueOfZeros(n: int)
    ensures AllDigits(Zeros(n)) && ValueOf(Zeros(n)) == 0
    decreases n
  {
    if n > 0 {
      ValueOfZeros(n - 1);
      var z := Zeros(n);
      assert z[..|z| - 1] == Zeros(n - 1);
    }
  }

  /** A non-negative value padded with zeros still reads back as itself. */
  lemma PaddedValue(x: nat, fill: int)
    ensures AllDigits(IntegralText(x, fill, false))
    ensures ValueOf(IntegralText(x, fill, false)) == x
  {
    var core := SignedText(x);
    assert AllDigits(core) && ValueOf(core) == x by {
      if x == 0 {
        assert core == "0";
        assert ValueOf(core) == ValueOf([]) * 10 + 0 by {
          assert core[..0] == [];
        }
      } else {
        assert core == Digits(x);
        DigitsRoundTrip(x);
      }
    }
    ValueOfLeadingZeros(fill - |core|, core);
    assert IntegralText(x, fill, false) == Zeros(fill - |core|) + core;
  }

  // ------------------------------------------------------------ trailing zeros

  /** Stripping removes only trailing '0's and leaves no '0' at the end. */
  lemma {:induction false} StripTrailingZerosShape(s: seq<char>)
    ensures var t := StripTrailingZeros(s);
      && |t| <= |s|
      && s == t + Zeros(|s| - |t|)
      && (t != [] ==> t[|t| - 1] != '0')
  {
    if s != [] && s[|s| - 1] == '0' {
      var init := s[..|s| - 1];
      StripTrailingZerosShape(init);
      var t := StripTrailingZeros(init);
      assert t == StripTrailingZeros(s);
      assert s == t + Zeros(|s| - |t|) by {
        var z := Zeros(|init| - |t|);
        assert Zeros(|s| - |t|) == z + ['0'];
        assert s == init + ['0'];
        assert (t + z) + ['0'] == t + (z + ['0']);
      }
    } else {
      assert Zeros(0) == [];
    }
  }

  /** Stripping keeps every character up to the last non-'0' one, so the
      result is empty only when s is all zeros. */
  lemma StripKeepsNonzero(s: seq<char>, j: int)
    requires 0 <= j < |s| && s[j] != '0'
    ensures |StripTrailingZeros(s)| > j
  {
    StripTrailingZerosShape(s);
  }

  /** Stripping k trailing zeros divides the value by 10^k. */
  lemma {:induction false} ValueOfTrailingZeros(t: seq<char>, k: nat)
    requires AllDigits(t)
    ensures AllDigits(t + Zeros(k)) && ValueOf(t + Zeros(k)) == ValueOf(t) * Pow10(k)
  {
    var s := t + Zeros(k);
    AllDigitsConcat(t, Zeros(k));
    if k > 0 {
      ValueOfTrailingZeros(t, k - 1);
      var v := ValueOf(t);
      var init := t + Zeros(k - 1);
      assert s[..|s| - 1] == init;
      assert s[|s| - 1] == '0';
      assert ValueOf(s) == 10 * ValueOf(init) + 0;
      TimesTen(v, Pow10(k - 1));
    } else {
      assert s == t;
    }
  }

  lemma TimesTen(v: int, p: int)
    ensures 10 * (v * p) == v * (10 * p)
  {
  }

  lemma AllDigitsConcat(a: seq<char>, b: seq<char>)
    requires AllDigits(a) && (AllDigits(b) || forall i :: 0 <= i < |b| ==> b[i] == '0')
    ensures AllDigits(a + b)
  {
    forall i | 0 <= i < |a + b| ensures IsDigit((a + b)[i]) {
      if i >= |a| { assert (a + b)[i] == b[i - |a|]; }
    }
  }

  /** What survives of a value's fill/strip rendering: a non-empty digit string
      without a trailing '0', which times a power of ten gives the value back. */
  lemma StrippedValue(x: nat, fill: int)
    requires x != 0
    ensures var padded := IntegralText(x, fill, false);
      var t := IntegralText(x, fill, true);
      && t != [] && AllDigits(t) && t[|t| - 1] != '0'
      && |t| <= |padded|
      && ValueOf(t) * Pow10(|padded| - |t|) == x
  {
    PaddedValue(x, fill);
    LastNonzeroOfPadded(x, fill);
    StripValue(IntegralText(x, fill, false));
  }

  /** Stripping a digit string that is not all zeros leaves a non-empty digit
      string that times a power of ten gives the value back. */
  lemma StripValue(s: seq<char>)
    requires AllDigits(s) && StripTrailingZeros(s) != []
    ensures var t := StripTrailingZeros(s);
      && AllDigits(t) && t[|t| - 1] != '0' && |t| <= |s|
      && ValueOf(t) * Pow10(|s| - |t|) == ValueOf(s)
  {
    var t := StripTrailingZeros(s);
    StripTrailingZerosShape(s);
    assert AllDigits(t) by {
      forall i | 0 <= i < |t| ensures IsDigit(t[i]) {
        assert t[i] == s[i];
      }
    }
    ValueOfTrailingZeros(t, |s| - |t|);
  }

  lemma LastNonzeroOfPadded(x: nat, fill: int)
    requires x != 0
    ensures StripTrailingZeros(IntegralText(x, fill, false)) != []
  {
    var padded := IntegralText(x, fill, false);
    IntegralTextPadded(x, fill);
    var core := SignedText(x);
    assert core == Digits(x);
    assert padded[|padded| - |core|] == core[0];
    StripKeepsNonzero(padded, |padded| - |core|);
  }
}
