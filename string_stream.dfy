/** `StringStreamBase` of include/base/string_stream.h: an append-only
    character buffer with number formatting state. The buffer (a
    `vector<char>`) is a `seq<char>` field that every output operation
    extends; the formatting state is the precision, its power of ten and the
    fill-zeroes-after-point flag. */
module StringStreams {
  import opened Ints
  import opened Decimals
  import opened DigitText
  import opened DecimalFormat

  const NUL: char := '\0'

  /** The integral types `put_integral_impl` is instantiated with. */
  datatype IntType = Int32 | UInt32 | Int64 | UInt64

  predicate InRange(t: IntType, x: int) {
    match t
    case Int32 => -0x8000_0000 <= x < 0x8000_0000
    case UInt32 => 0 <= x < 0x1_0000_0000
    case Int64 => INT64_MIN <= x <= INT64_MAX
    case UInt64 => 0 <= x <= UINT64_MAX
  }

  /** `-x` on the most negative value of a signed type overflows. */
  predicate Negatable(t: IntType, x: int) {
    match t
    case Int32 => x != -0x8000_0000
    case Int64 => x != INT64_MIN
    case _ => true
  }

  /** The scratch buffer: 16 bytes for types narrower than 8 bytes, else 32. */
  function ScratchSize(t: IntType): nat {
    if t == Int32 || t == UInt32 then 16 else 32
  }

  /** Input a call to `put_integral_impl` is defined on: x fits its type and
      can be negated, the zero-fill fits the scratch buffer, and the
      trailing-zero scan finds a nonzero digit to stop at. */
  predicate CanRender(t: IntType, x: int, fill: int, removeTrailingZeroes: bool) {
    InRange(t, x) && Negatable(t, x) && fill <= ScratchSize(t)
    && (removeTrailingZeroes ==> x != 0)
  }

  lemma DigitsFit(t: IntType, x: int)
    requires InRange(t, x)
    ensures |Digits(Abs(x))| < ScratchSize(t) && |SignedText(x)| <= ScratchSize(t)
  {
    Pow10Values();
    if t == Int32 || t == UInt32 {
      assert Pow10(10) == 10_000_000_000;
      DigitsLength(Abs(x), 10);
    } else {
      DigitsLength(Abs(x), 20);
    }
  }

  lemma SingleDigit(u: nat)
    requires 1 <= u < 10
    ensures Digits(u) == [DigitChar(u)]
  {
    assert Digits(u / 10) == [];
  }

  /** The body of `put_integral_impl` up to its final `put_chars`: digits are
      written backward into a scratch array, three at a time while at least
      100 remains, then two at a time, then the last digit and the sign; the
      zero-fill goes in front and trailing zeros are optionally cut off. */
  method RenderIntegral(t: IntType, x: int, fill: int, removeTrailingZeroes: bool)
    returns (text: seq<char>)
    requires CanRender(t, x, fill, removeTrailingZeroes)
    ensures text == IntegralText(x, fill, removeTrailingZeroes)
  {
    var size := ScratchSize(t);
    var buffer := new char[size];
    ghost var core := SignedText(x);
    DigitsFit(t, x);
    var itr := WriteSigned(buffer, x);

    itr := FillZeroes(buffer, itr, fill);
    ghost var padded := Padded(x, fill);
    assert buffer[itr..] == padded;

    var last := size;
    if removeTrailingZeroes {
      assert buffer[size - |core|] == core[0] != '0' by {
        SignedTextShape(x);
      }
      last := TrailingZerosStart(buffer, itr, size - |core|);
    }
    text := buffer[itr..last];
  }

  /** `fill_zeroes -= written; if (fill_zeroes > 0) memset(...)`: zeros in
      front of the `written` characters up to `fill` characters in all. */
  method FillZeroes(buffer: array<char>, itr: int, fill: int) returns (start: int)
    requires 0 <= itr <= buffer.Length && fill <= buffer.Length
    modifies buffer
    ensures 0 <= start <= itr
    ensures buffer[start..] == Zeros(fill - (buffer.Length - itr)) + old(buffer[itr..])
  {
    start := itr;
    var fillZeroes := fill - (buffer.Length - itr);
    if fillZeroes > 0 {
      start := itr - fillZeroes;
      WriteZeros(buffer, start, itr);
      assert buffer[start..] == buffer[start..itr] + buffer[itr..];
    }
  }

  /** Everything before the zero-fill: the magnitude's digits, then '-' for a
      negative x, or a single '0' for zero. */
  method WriteSigned(buffer: array<char>, x: int) returns (itr: int)
    requires |Digits(Abs(x))| < buffer.Length
    modifies buffer
    ensures 0 <= itr < buffer.Length && buffer[itr..] == SignedText(x)
  {
    var negative := x < 0;
    var ux: nat := if negative then -x else x;
    if ux != 0 {
      itr := WriteMagnitude(buffer, ux);
      if negative {
        itr := itr - 1;
        buffer[itr] := '-';
        assert buffer[itr..] == ['-'] + buffer[itr + 1..];
      }
    } else {
      itr := buffer.Length - 1;
      buffer[itr] := '0';
    }
  }

  /** The two writer loops and the final digit: the digits of u, right-aligned
      in the array. */
  method WriteMagnitude(buffer: array<char>, u: nat) returns (itr: int)
    requires u > 0 && |Digits(u)| < buffer.Length
    modifies buffer
    ensures 1 <= itr <= buffer.Length && buffer[itr..] == Digits(u)
  {
    var size := buffer.Length;
    var ux := u;
    itr := size;
    while ux >= 100
      invariant |Digits(ux)| < itr <= size
      invariant Digits(ux) + buffer[itr..] == Digits(u)
    {
      ux, itr := PutChunk3(buffer, ux, itr);
    }
    while ux >= 10
      invariant |Digits(ux)| < itr <= size
      invariant Digits(ux) + buffer[itr..] == Digits(u)
    {
      ux, itr := PutChunk2(buffer, ux, itr);
    }
    if ux != 0 {
      SingleDigit(ux);
      itr := itr - 1;
      buffer[itr] := DigitChar(ux);
      assert buffer[itr..] == [DigitChar(ux)] + buffer[itr + 1..];
    } else {
      assert Digits(ux) == [];
    }
  }

  /** One pass of the first loop: the last three digits of `ux`, from the
      three-digit table, in front of what is already written. */
  method PutChunk3(buffer: array<char>, ux: nat, itr: int) returns (newUx: nat, newItr: int)
    requires ux >= 100 && |Digits(ux)| < itr <= buffer.Length
    modifies buffer
    ensures newUx == ux / 1000 && newItr == itr - 3
    ensures |Digits(newUx)| < newItr
    ensures Digits(newUx) + buffer[newItr..] == Digits(ux) + old(buffer[itr..])
  {
    DigitsLength(ux, 2);
    SplitChunk3(ux);
    newUx := ux / 1000;
    newItr := itr - 3;
    ghost var rest := buffer[itr..];
    Memcpy(buffer, newItr, Chunk3(ux - newUx * 1000));
    SeqAssoc(Digits(newUx), Chunk3(ux % 1000), rest);
  }

  /** One pass of the second loop, with the two-digit table. */
  method PutChunk2(buffer: array<char>, ux: nat, itr: int) returns (newUx: nat, newItr: int)
    requires ux >= 10 && |Digits(ux)| < itr <= buffer.Length
    modifies buffer
    ensures newUx == ux / 100 && newItr == itr - 2
    ensures |Digits(newUx)| < newItr
    ensures Digits(newUx) + buffer[newItr..] == Digits(ux) + old(buffer[itr..])
  {
    DigitsLength(ux, 1);
    SplitChunk2(ux);
    newUx := ux / 100;
    newItr := itr - 2;
    ghost var rest := buffer[itr..];
    Memcpy(buffer, newItr, Chunk2(ux - newUx * 100));
    SeqAssoc(Digits(newUx), Chunk2(ux % 100), rest);
  }

  /** The `memcpy` of a table entry into the scratch buffer at `at`. */
  method Memcpy(buffer: array<char>, at: int, chunk: seq<char>)
    requires 0 <= at && at + |chunk| <= buffer.Length
    modifies buffer
    ensures buffer[at..] == chunk + old(buffer[at + |chunk|..])
    ensures buffer[..at] == old(buffer[..at])
  {
    var i := 0;
    while i < |chunk|
      invariant 0 <= i <= |chunk|
      invariant buffer[at..at + i] == chunk[..i]
      invariant buffer[at + |chunk|..] == old(buffer[at + |chunk|..])
      invariant buffer[..at] == old(buffer[..at])
    {
      buffer[at + i] := chunk[i];
      i := i + 1;
      assert buffer[at..at + i] == buffer[at..at + i - 1] + [chunk[i - 1]];
    }
    assert buffer[at..] == buffer[at..at + |chunk|] + buffer[at + |chunk|..];
  }

  /** The `memset` of the zero-fill. */
  method WriteZeros(buffer: array<char>, start: int, end: int)
    requires 0 <= start <= end <= buffer.Length
    modifies buffer
    ensures buffer[start..end] == Zeros(end - start)
    ensures buffer[end..] == old(buffer[end..])
    ensures buffer[..start] == old(buffer[..start])
  {
    var i := start;
    while i < end
      invariant start <= i <= end
      invariant buffer[start..i] == Zeros(i - start)
      invariant buffer[end..] == old(buffer[end..])
      invariant buffer[..start] == old(buffer[..start])
    {
      buffer[i] := '0';
      i := i + 1;
      assert buffer[start..i] == buffer[start..i - 1] + ['0'];
    }
  }

  /** The trailing-zero scan: walks back from the end over '0's. A non-'0' at
      `stop` keeps it inside the text. */
  method TrailingZerosStart(buffer: array<char>, itr: int, ghost stop: int) returns (last: int)
    requires 0 <= itr <= stop < buffer.Length && buffer[stop] != '0'
    ensures itr <= stop < last <= buffer.Length
    ensures buffer[itr..last] == StripTrailingZeros(buffer[itr..])
  {
    last := buffer.Length - 1;
    assert buffer[itr..last + 1] == buffer[itr..];
    while buffer[last] == '0'
      invariant stop <= last < buffer.Length
      invariant StripTrailingZeros(buffer[itr..]) == StripTrailingZeros(buffer[itr..last + 1])
      decreases last
    {
      assert buffer[itr..last + 1][..last - itr] == buffer[itr..last];
      last := last - 1;
    }
    last := last + 1;
  }

  // ---------------------------------------------------------------- buffer views

  /** The buffer after `c_str()`: a NUL is pushed unless the buffer already
      ends with one. */
  function WithTerminator(b: seq<char>): seq<char>
  {
    if b == [] || b[|b| - 1] != NUL then b + [NUL] else b
  }

  /** The characters `view()` covers: the buffer without one trailing NUL. */
  function ViewOf(b: seq<char>): seq<char>
  {
    if b == [] || b[|b| - 1] != NUL then b else b[..|b| - 1]
  }

  /** `c_str` terminates the buffer at most once. */
  lemma CStrIdempotent(b: seq<char>)
    ensures WithTerminator(WithTerminator(b)) == WithTerminator(b)
    ensures |WithTerminator(b)| > 0 && WithTerminator(b)[|WithTerminator(b)| - 1] == NUL
  {
  }

  /** The terminated buffer is exactly the view plus one NUL: `view()` never
      shows the terminator, and `c_str` does not change what `view()` shows. */
  lemma ViewWithoutTerminator(b: seq<char>)
    ensures WithTerminator(b) == ViewOf(b) + [NUL]
    ensures ViewOf(WithTerminator(b)) == ViewOf(b)
  {
    if b != [] && b[|b| - 1] == NUL {
      assert b == b[..|b| - 1] + [NUL];
    }
  }

  /** A `const char*` argument: a null pointer, or the characters from the
      pointer on, which must contain the terminating NUL. */
  datatype CString = Null | Chars(memory: seq<char>)

  predicate Terminated(c: CString) {
    c.Chars? ==> NUL in c.memory
  }

  /** The `strlen(chars)` characters in front of the first NUL. */
  function UntilNul(memory: seq<char>): (s: seq<char>)
    requires NUL in memory
    ensures NUL !in s && |s| < |memory| && memory[..|s| + 1] == s + [NUL]
  {
    if memory[0] == NUL then [] else [memory[0]] + UntilNul(memory[1..])
  }

  /** The items of a range joined with ", ". */
  function Join(items: seq<seq<char>>): seq<char>
  {
    if |items| == 0 then []
    else if |items| == 1 then items[0]
    else Join(items[..|items| - 1]) + ", " + items[|items| - 1]
  }

  /** `put_range`: "[ ", the items separated by ", ", then " ]". */
  function RangeText(items: seq<seq<char>>): seq<char>
  {
    "[ " + Join(items) + " ]"
  }

  /** The texts `*this << *begin` produces for a range of integers. */
  function IntegralTexts(items: seq<int>): (r: seq<seq<char>>)
    ensures |r| == |items|
    ensures forall i :: 0 <= i < |items| ==> r[i] == SignedText(items[i])
  {
    if items == [] then [] else IntegralTexts(items[..|items| - 1]) + [SignedText(items[|items| - 1])]
  }

  /** Joining is associative across a split of the items. */
  lemma {:induction false} JoinSplit(a: seq<seq<char>>, b: seq<seq<char>>)
    requires a != [] && b != []
    ensures Join(a + b) == Join(a) + ", " + Join(b)
  {
    if |b| == 1 {
      assert (a + b)[..|a + b| - 1] == a;
    } else {
      var init := b[..|b| - 1];
      JoinSplit(a, init);
      assert (a + b)[..|a + b| - 1] == a + init;
    }
  }

  lemma RangeTextExamples()
    ensures RangeText([]) == "[  ]"
    ensures RangeText(["1"]) == "[ 1 ]"
    ensures RangeText(["1", "2", "3"]) == "[ 1, 2, 3 ]"
  {
    assert ["1", "2", "3"][..2] == ["1", "2"];
    assert ["1", "2"][..1] == ["1"];
  }

  // ---------------------------------------------------------------- the stream

  class StringStream {
    var buffer: seq<char>
    var precisionPower: int
    var precision: int
    var fillZeroesAfterPoint: bool

    /** `precision_` is the int8 clamped at 9 and `precision_power_` its power
        of ten. */
    ghost predicate Valid()
      reads this`precision, this`precisionPower
    {
      ValidPrecision(precision) && precisionPower == PrecisionPower(precision)
    }

    constructor ()
      ensures Valid() && buffer == []
      ensures precision == 6 && precisionPower == 1_000_000 && !fillZeroesAfterPoint
    {
      buffer := [];
      new;
      Init();
    }

    /** `StringStreamBase(Container buffer)`: starts from a copy of `initial`. */
    constructor FromBuffer(initial: seq<char>)
      ensures Valid() && buffer == initial
      ensures precision == 6 && precisionPower == 1_000_000 && !fillZeroesAfterPoint
    {
      buffer := initial;
      new;
      Init();
    }

    method Init()
      modifies this`precision, this`precisionPower, this`fillZeroesAfterPoint
      ensures Valid()
      ensures precision == 6 && precisionPower == 1_000_000 && !fillZeroesAfterPoint
    {
      precision := 6;
      precisionPower := 1_000_000;
      fillZeroesAfterPoint := false;
      Pow10Values();
    }

    function Empty(): (r: bool)
      reads this`buffer
      ensures r <==> |buffer| == 0
    {
      buffer == []
    }

    method Clear()
      modifies this`buffer
      ensures buffer == []
    {
      buffer := [];
    }

    /** `c_str()`: terminates the buffer and hands out its contents. */
    method CStr() returns (data: seq<char>)
      modifies this`buffer
      ensures buffer == WithTerminator(old(buffer)) && data == buffer
    {
      if buffer == [] || buffer[|buffer| - 1] != NUL {
        buffer := buffer + [NUL];
      }
      data := buffer;
    }

    /** `view()`: the buffer, or the buffer minus a trailing NUL. */
    function View(): (v: seq<char>)
      reads this`buffer
      ensures v + [NUL] == WithTerminator(buffer)
      ensures buffer == v || buffer == v + [NUL]
    {
      ViewWithoutTerminator(buffer);
      if buffer == [] || buffer[|buffer| - 1] != NUL then buffer else buffer[..|buffer| - 1]
    }

    /** `put_chars(chars, length)`. */
    method PutChars(chars: seq<char>)
      modifies this`buffer
      ensures buffer == old(buffer) + chars
    {
      buffer := buffer + chars;
    }

    /** `put_chars(const char*)`, i.e. `operator<<(const char*)`: nothing for a
        null pointer, else the characters up to the NUL. */
    method PutCString(chars: CString)
      requires Terminated(chars)
      modifies this`buffer
      ensures buffer == old(buffer) + (if chars.Null? then [] else UntilNul(chars.memory))
    {
      if chars.Chars? {
        PutChars(UntilNul(chars.memory));
      }
    }

    /** `operator<<(char)`. */
    method PutChar(c: char)
      modifies this`buffer
      ensures buffer == old(buffer) + [c]
    {
      buffer := buffer + [c];
    }

    /** `operator<<(std::endl)`. */
    method PutEndl()
      modifies this`buffer
      ensures buffer == old(buffer) + ['\n']
    {
      PutChar('\n');
    }

    /** `operator<<(Precision)`: clamps at 9 (a negative value is kept) and
        recomputes the power of ten in a loop. */
    method SetPrecision(p: int)
      requires -128 <= p < 128
      modifies this`precision, this`precisionPower
      ensures Valid() && precision == Min(p, 9)
      ensures precisionPower == PrecisionPower(precision)
    {
      precision := Min(p, 9);
      precisionPower := 1;
      var i := 0;
      while i < precision
        invariant precision == Min(p, 9)
        invariant 0 <= i && (precision <= 0 ==> i == 0) && (precision > 0 ==> i <= precision)
        invariant precisionPower == Pow10(i)
      {
        precisionPower := precisionPower * 10;
        i := i + 1;
      }
    }

    /** `operator<<(FillZeroes)`. */
    method SetFillZeroes(fillZeroes: bool)
      modifies this`fillZeroesAfterPoint
      ensures fillZeroesAfterPoint == fillZeroes
    {
      fillZeroesAfterPoint := fillZeroes;
    }

    method PutIntegralImpl(t: IntType, x: int, fill: int, removeTrailingZeroes: bool)
      requires CanRender(t, x, fill, removeTrailingZeroes)
      modifies this`buffer
      ensures buffer == old(buffer) + IntegralText(x, fill, removeTrailingZeroes)
    {
      var text := RenderIntegral(t, x, fill, removeTrailingZeroes);
      PutChars(text);
    }

    /** `put_integral(x, fill_zeroes)`, behind every integer `operator<<`
        (with fill 0). */
    method PutIntegral(t: IntType, x: int, fill: int)
      requires CanRender(t, x, fill, false)
      modifies this`buffer
      ensures buffer == old(buffer) + IntegralText(x, fill, false)
    {
      PutIntegralImpl(t, x, fill, false);
    }

    /** `put_decimal(int64 integral, int64 fractional, fill_zeroes)`. */
    method PutDecimalParts(integral: int, fractional: int, fill: int)
      requires Valid()
      requires CanRender(Int64, integral, fill, false) && CanRender(Int64, fractional, 0, false)
      modifies this`buffer
      ensures buffer
        == old(buffer) + IntegralText(integral, fill, false) + FractionText(fractional, precision, fillZeroesAfterPoint)
    {
      ghost var start := buffer;
      ghost var fraction := FractionText(fractional, precision, fillZeroesAfterPoint);
      PutIntegral(Int64, integral, fill);
      ghost var withIntegral := buffer;
      if fractional != 0 || fillZeroesAfterPoint {
        PutChar('.');
        PutIntegralImpl(Int64, fractional, precision, !fillZeroesAfterPoint);
        ghost var digits := IntegralText(fractional, precision, !fillZeroesAfterPoint);
        assert fraction == ['.'] + digits;
        assert buffer == (withIntegral + ['.']) + digits;
        SeqAssoc(withIntegral, ['.'], digits);
      } else {
        assert fraction == [];
      }
    }

    /** `put_decimal(Decimal d, fill_zeroes)`, behind `operator<<(Decimal)`
        (with fill 0). */
    method PutDecimal(d: Decimal, fill: int)
      requires Valid() && Decimals.Valid(d) && d.numerator != INT64_MIN && fill <= 32
      modifies this`buffer
      ensures buffer == old(buffer) + DecimalText(d.numerator, precision, fillZeroesAfterPoint, fill)
    {
      ghost var start := buffer;
      var multiplied := d.numerator;
      if multiplied < 0 {
        PutChar('-');
        multiplied := -multiplied;
      }
      assert buffer == start + (if d.numerator < 0 then "-" else "");
      assert multiplied == Abs(d.numerator);
      var integral := multiplied / MultFactor;
      var fractional := multiplied % MultFactor;
      if precision >= MultPow {
        fractional := fractional * Pow10(precision - MultPow);
      } else {
        fractional := DivideAndRound(fractional, Pow10(MultPow - precision));
        if fractional >= precisionPower {
          fractional := fractional - precisionPower;
          integral := integral + 1;
        }
      }
      assert Parts(integral, fractional) == RoundedParts(multiplied, precision);
      PartsFit(multiplied, precision);
      ghost var signed := buffer;
      PutDecimalParts(integral, fractional, fill);
      ghost var sign := if d.numerator < 0 then "-" else "";
      ghost var integralText := IntegralText(integral, fill, false);
      ghost var fractionText := FractionText(fractional, precision, fillZeroesAfterPoint);
      assert buffer == ((start + sign) + integralText) + fractionText;
      assert DecimalText(d.numerator, precision, fillZeroesAfterPoint, fill)
        == (sign + integralText) + fractionText;
      SeqAssoc(start, sign, integralText);
      SeqAssoc(start, sign + integralText, fractionText);
    }

    /** `put_range` over integers of type t. */
    method PutRange(t: IntType, items: seq<int>)
      requires forall i :: 0 <= i < |items| ==> CanRender(t, items[i], 0, false)
      modifies this`buffer
      ensures buffer == old(buffer) + RangeText(IntegralTexts(items))
    {
      PutChars("[ ");
      ghost var opening := buffer;
      var commaRequired := false;
      var i := 0;
      while i < |items|
        invariant 0 <= i <= |items| && commaRequired == (i > 0)
        invariant buffer == opening + Join(IntegralTexts(items[..i]))
      {
        ghost var joined := Join(IntegralTexts(items[..i]));
        PutRangeItem(t, items[i], commaRequired);
        commaRequired := true;
        JoinStep(items, i);
        ghost var separator: seq<char> := if i == 0 then [] else ", ";
        assert i == 0 ==> joined == [];
        SeqAssoc(opening, joined, separator);
        SeqAssoc(opening, joined + separator, SignedText(items[i]));
        i := i + 1;
      }
      assert items[..i] == items;
      PutChars(" ]");
    }

    /** One item of `put_range`: the separator when one is due, then the item. */
    method PutRangeItem(t: IntType, x: int, commaRequired: bool)
      requires CanRender(t, x, 0, false)
      modifies this`buffer
      ensures buffer == old(buffer) + (if commaRequired then ", " else []) + SignedText(x)
    {
      if commaRequired {
        PutChars(", ");
      }
      IntegralTextCanonical(x, 0);
      PutIntegral(t, x, 0);
    }

    /** `operator<<(std::pair)` for a text key and an integral value. */
    method PutPair(first: seq<char>, t: IntType, second: int)
      requires CanRender(t, second, 0, false)
      modifies this`buffer
      ensures buffer == old(buffer) + first + ": " + SignedText(second)
    {
      PutChars(first);
      PutChars(": ");
      IntegralTextCanonical(second, 0);
      PutIntegral(t, second, 0);
    }
  }

  /** The parts the stream prints fit the integer writer. */
  lemma PartsFit(m: nat, p: int)
    requires ValidPrecision(p) && m <= INT64_MAX
    ensures CanRender(Int64, RoundedParts(m, p).integral, 32, false)
    ensures CanRender(Int64, RoundedParts(m, p).fractional, 0, false)
  {
    RoundedPartsNonNegative(m, p);
    Pow10Values();
    if p < 0 {
      RoundedPartsNegativePrecision(m, p);
    } else if p < MultPow {
      RoundedPartsBelowMultPow(m, p);
    } else {
      RoundedPartsAboveMultPow(m, p);
    }
  }

  lemma SeqAssoc(a: seq<char>, b: seq<char>, c: seq<char>)
    ensures (a + b) + c == a + (b + c)
  {
  }

  /** One iteration of the range loop. */
  lemma JoinStep(items: seq<int>, i: int)
    requires 0 <= i < |items|
    ensures Join(IntegralTexts(items[..i + 1]))
      == (if i == 0 then [] else Join(IntegralTexts(items[..i])) + ", ") + SignedText(items[i])
  {
    var prefix := items[..i + 1];
    assert prefix[..|prefix| - 1] == items[..i];
  }
}
