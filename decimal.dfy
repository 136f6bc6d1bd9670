/** The fixed-point money type `Decimal` of include/base/decimal.h.
    A value is one int64 numerator equal to the true value times 10^7.
    Integer construction, addition, subtraction, negation, `abs` and
    multiplication by an integer are exact integer arithmetic on the
    numerator; division by an integer rounds the magnitude half away from
    zero. The source performs no overflow checks (overflow of int64 is
    undefined behaviour), so each operation requires its result to fit. */
module Decimals {
  import opened Ints

  const MultPow: nat := 7
  const MaxPow: nat := 18
  const MultFactor: int := 10_000_000

  datatype Decimal = FromNumerator(numerator: int)

  predicate Valid(d: Decimal) {
    InInt64(d.numerator)
  }

  // ---------------------------------------------------------------- construction

  /** `Decimal(T value)` for an integral T: the numerator is value * 10^7. */
  function FromInteger(n: int): (d: Decimal)
    requires InInt64(n * MultFactor)
    ensures Valid(d)
    ensures d.numerator / MultFactor == n && d.numerator % MultFactor == 0
  {
    FromNumerator(n * MultFactor)
  }

  /** The integer literal `_dc(unsigned long long)`: goes through
      `from_numerator` but agrees with integer construction. */
  function LiteralDc(ull: nat): (d: Decimal)
    requires ull * MultFactor <= INT64_MAX
    ensures d == FromInteger(ull)
  {
    FromNumerator(ull * MultFactor)
  }

  // ---------------------------------------------------------------- arithmetic

  /** `operator+(Decimal, Decimal)`: the sum is in range and taking away
      either operand leaves the other. */
  function Add(lhs: Decimal, rhs: Decimal): (r: Decimal)
    requires InInt64(lhs.numerator + rhs.numerator)
    ensures Valid(r)
    ensures r.numerator - rhs.numerator == lhs.numerator
    ensures r.numerator - lhs.numerator == rhs.numerator
  {
    FromNumerator(lhs.numerator + rhs.numerator)
  }

  /** `operator-(Decimal, Decimal)`: the difference is in range and adding
      the right operand back gives the left one. */
  function Sub(lhs: Decimal, rhs: Decimal): (r: Decimal)
    requires InInt64(lhs.numerator - rhs.numerator)
    ensures Valid(r)
    ensures r.numerator + rhs.numerator == lhs.numerator
  {
    FromNumerator(lhs.numerator - rhs.numerator)
  }

  /** `Decimal& operator+=(Decimal)`: updates the numerator of the left
      operand in place; the updated left operand is returned. */
  method AddAssign(lhs: Decimal, rhs: Decimal) returns (updated: Decimal)
    requires InInt64(lhs.numerator + rhs.numerator)
    ensures updated == Add(lhs, rhs)
  {
    var number := lhs.numerator;
    number := number + rhs.numerator;
    updated := FromNumerator(number);
  }

  /** `Decimal& operator-=(Decimal)`. */
  method SubAssign(lhs: Decimal, rhs: Decimal) returns (updated: Decimal)
    requires InInt64(lhs.numerator - rhs.numerator)
    ensures updated == Sub(lhs, rhs)
  {
    var number := lhs.numerator;
    number := number - rhs.numerator;
    updated := FromNumerator(number);
  }

  /** `Decimal + T` and `T + Decimal` for an integral T convert the integer first. */
  function AddInt(lhs: Decimal, rhs: int): (r: Decimal)
    requires InInt64(rhs * MultFactor) && InInt64(lhs.numerator + rhs * MultFactor)
    ensures r.numerator - lhs.numerator == rhs * MultFactor
  {
    Add(lhs, FromInteger(rhs))
  }

  function IntAdd(lhs: int, rhs: Decimal): (r: Decimal)
    requires InInt64(lhs * MultFactor) && InInt64(lhs * MultFactor + rhs.numerator)
    ensures r == AddInt(rhs, lhs)
  {
    Add(FromInteger(lhs), rhs)
  }

  function SubInt(lhs: Decimal, rhs: int): (r: Decimal)
    requires Valid(lhs) && InInt64(rhs * MultFactor) && InInt64(lhs.numerator - rhs * MultFactor)
    ensures InInt64(r.numerator + rhs * MultFactor) && AddInt(r, rhs) == lhs
  {
    Sub(lhs, FromInteger(rhs))
  }

  function IntSub(lhs: int, rhs: Decimal): (r: Decimal)
    requires InInt64(lhs * MultFactor) && InInt64(lhs * MultFactor - rhs.numerator)
    requires Valid(rhs)
    ensures InInt64(r.numerator + rhs.numerator) && Add(r, rhs) == FromInteger(lhs)
  {
    Sub(FromInteger(lhs), rhs)
  }

  /** Unary minus. */
  function Neg(d: Decimal): (r: Decimal)
    requires InInt64(-d.numerator)
    ensures Valid(r) && r.numerator + d.numerator == 0
  {
    FromNumerator(-d.numerator)
  }

  /** `abs(Decimal)`: the argument itself when its numerator is non-negative,
      its negation otherwise. */
  function AbsDecimal(d: Decimal): (r: Decimal)
    requires InInt64(-d.numerator)
    ensures r.numerator >= 0
    ensures r.numerator == d.numerator || r.numerator == -d.numerator
  {
    if d.numerator >= 0 then d else Neg(d)
  }

  /** `Decimal * T` for an integral T. */
  function MulInt(lhs: Decimal, rhs: int): (r: Decimal)
    requires InInt64(lhs.numerator * rhs)
    ensures Valid(r) && r.numerator == lhs.numerator * rhs
    ensures rhs == 0 ==> r == FromNumerator(0)
    ensures rhs == 1 ==> r == lhs
  {
    FromNumerator(lhs.numerator * rhs)
  }

  /** `T * Decimal` for an integral T. */
  function IntMul(lhs: int, rhs: Decimal): (r: Decimal)
    requires InInt64(lhs * rhs.numerator)
    ensures r == MulInt(rhs, lhs)
  {
    FromNumerator(lhs * rhs.numerator)
  }

  /** What `operator/(Decimal, T)` demands: a non-zero divisor, and no int64
      overflow when the divisor and the numerator are negated and when half
      the divisor is added to the magnitude. */
  predicate DivIntDefined(lhs: Decimal, rhs: int) {
    && rhs != 0
    && INT64_MIN < rhs <= INT64_MAX
    && INT64_MIN < lhs.numerator <= INT64_MAX
    && Abs(lhs.numerator) + Abs(rhs) / 2 <= INT64_MAX
  }

  /** The body of `operator/(Decimal, T)` on the raw numerator: it folds the
      divisor's sign into the numerator, then rounds the magnitude of the
      quotient half away from zero. All divisions here have non-negative
      operands, so C++'s truncating `/` and Dafny's Euclidean `/` agree. */
  function DivideNumerator(lhsNumerator: int, rhs: int): (r: int)
    requires rhs != 0
    ensures var q := (Abs(lhsNumerator) + Abs(rhs) / 2) / Abs(rhs);
      r == if (lhsNumerator < 0) == (rhs < 0) then q else -q
  {
    var numerator := if rhs < 0 then -lhsNumerator else lhsNumerator;
    var divisor := if rhs < 0 then -rhs else rhs;
    if numerator >= 0 then (numerator + divisor / 2) / divisor
    else -((-numerator + divisor / 2) / divisor)
  }

  /** `operator/(Decimal, T)`. */
  function DivInt(lhs: Decimal, rhs: int): (r: Decimal)
    requires DivIntDefined(lhs, rhs)
    ensures Valid(r)
    ensures var q := Abs(r.numerator);
      && 2 * Abs(q * Abs(rhs) - Abs(lhs.numerator)) <= Abs(rhs)
      && (2 * Abs(q * Abs(rhs) - Abs(lhs.numerator)) == Abs(rhs) ==> q * Abs(rhs) > Abs(lhs.numerator))
    ensures r.numerator != 0 ==> (r.numerator < 0 <==> (lhs.numerator < 0) != (rhs < 0))
  {
    DivideNumeratorBound(lhs.numerator, rhs);
    DivideNumeratorHalfAway(lhs.numerator, rhs);
    FromNumerator(DivideNumerator(lhs.numerator, rhs))
  }

  // ---------------------------------------------------------------- comparisons

  datatype CmpOp = Eq | Ne | Lt | Le | Gt | Ge

  /** The comparison operators on plain integers. */
  function IntCmp(op: CmpOp, a: int, b: int): bool {
    match op
    case Eq => a == b
    case Ne => a != b
    case Lt => a < b
    case Le => a <= b
    case Gt => a > b
    case Ge => a >= b
  }

  /** The comparison `a op b` with its operands swapped: `a op b == b Flip(op) a`. */
  function Flip(op: CmpOp): CmpOp {
    match op
    case Eq => Eq
    case Ne => Ne
    case Lt => Gt
    case Le => Ge
    case Gt => Lt
    case Ge => Le
  }

  /** `==, !=, <, <=, >, >=` on two Decimals: they compare numerators. */
  function Compare(op: CmpOp, lhs: Decimal, rhs: Decimal): (b: bool)
    ensures op == Eq ==> (b <==> lhs == rhs)
    ensures op == Ne ==> (b <==> lhs != rhs)
    ensures op == Lt ==> (b <==> lhs.numerator < rhs.numerator)
    ensures op == Le ==> (b <==> lhs.numerator <= rhs.numerator)
    ensures op == Gt ==> (b <==> lhs.numerator > rhs.numerator)
    ensures op == Ge ==> (b <==> lhs.numerator >= rhs.numerator)
  {
    IntCmp(op, lhs.numerator, rhs.numerator)
  }

  /** The six comparisons of a Decimal with an integer on the right: the
      integer is converted with `Decimal(rhs)` first. */
  function CompareInt(op: CmpOp, lhs: Decimal, rhs: int): (b: bool)
    requires InInt64(rhs * MultFactor)
    ensures b == IntCmp(op, lhs.numerator, rhs * MultFactor)
  {
    Compare(op, lhs, FromInteger(rhs))
  }

  /** The six comparisons of an integer on the left with a Decimal. */
  function IntCompare(op: CmpOp, lhs: int, rhs: Decimal): (b: bool)
    requires InInt64(lhs * MultFactor)
    ensures b == CompareInt(Flip(op), rhs, lhs)
  {
    Compare(op, FromInteger(lhs), rhs)
  }

  // ---------------------------------------------------------------- digits and hash

  /** The least k in 0..7 such that numerator * 10^k is a multiple of 10^7:
      the number of fractional digits the value needs. Scans upward from
      `from`. */
  function FractionDigitsFrom(n: int, from: nat): (k: nat)
    requires from <= MultPow
    ensures from <= k <= MultPow
    ensures (n * Pow10(k)) % MultFactor == 0
    ensures forall j :: from <= j < k ==> (n * Pow10(j)) % MultFactor != 0
    decreases MultPow - from
  {
    if from == MultPow then
      assert (n * Pow10(from)) % MultFactor == 0 by {
        Pow10Values();
        MulModZero(n, MultFactor);
      }
      from
    else if (n * Pow10(from)) % MultFactor == 0 then from
    else FractionDigitsFrom(n, from + 1)
  }

  function FractionDigits(n: int): (k: nat)
    ensures k <= MultPow
    ensures (n * Pow10(k)) % MultFactor == 0
    ensures forall j :: 0 <= j < k ==> (n * Pow10(j)) % MultFactor != 0
  {
    FractionDigitsFrom(n, 0)
  }

  /** `decimal_digits()`: multiplies a copy of the numerator by 10 until it
      is a multiple of 10^7, counting the steps. The source's only demand is
      that this copy never overflows int64. */
  method DecimalDigits(d: Decimal) returns (digits: int)
    requires InInt64(d.numerator * Pow10(FractionDigits(d.numerator)))
    ensures digits == FractionDigits(d.numerator)
  {
    var shiftedNumber := d.numerator;
    digits := 0;
    while shiftedNumber % MultFactor != 0
      invariant 0 <= digits <= FractionDigits(d.numerator)
      invariant shiftedNumber == d.numerator * Pow10(digits)
      decreases MultPow - digits
    {
      assert digits < FractionDigits(d.numerator);
      NoOverflowBelow(d.numerator, digits + 1, FractionDigits(d.numerator));
      shiftedNumber := shiftedNumber * 10;
      digits := digits + 1;
    }
  }

  lemma NoOverflowBelow(n: int, j: nat, k: nat)
    requires j <= k && InInt64(n * Pow10(k))
    ensures InInt64(n * Pow10(j))
  {
    Pow10Monotone(j, k);
    if n >= 0 {
      MulLe(Pow10(j), Pow10(k), n);
    } else {
      MulLe(Pow10(j), Pow10(k), -n);
    }
  }

  /** `std::hash<Decimal>`: the standard library's int64 hash (a black box
      here, passed in as `hashInt64`) applied to the numerator. */
  function Hash(hashInt64: int -> int, d: Decimal): (h: int)
    ensures h == hashInt64(d.numerator)
  {
    hashInt64(d.numerator)
  }

  // ---------------------------------------------------------------- properties

  /** Adding and then subtracting the same Decimal gives back the original. */
  lemma AddSubCancel(a: Decimal, b: Decimal)
    requires Valid(a) && InInt64(a.numerator + b.numerator)
    ensures Sub(Add(a, b), b) == a
  {
  }

  lemma AddCommutative(a: Decimal, b: Decimal)
    requires InInt64(a.numerator + b.numerator)
    ensures Add(a, b) == Add(b, a)
  {
  }

  lemma AddAssociative(a: Decimal, b: Decimal, c: Decimal)
    requires InInt64(a.numerator + b.numerator) && InInt64(b.numerator + c.numerator)
    requires InInt64(a.numerator + b.numerator + c.numerator)
    ensures Add(Add(a, b), c) == Add(a, Add(b, c))
  {
  }

  /** Integer construction is exact: sums of integer-constructed values are
      integer-constructed values of the sums. */
  lemma FromIntegerAdditive(m: int, n: int)
    requires InInt64(m * MultFactor) && InInt64(n * MultFactor) && InInt64((m + n) * MultFactor)
    ensures Add(FromInteger(m), FromInteger(n)) == FromInteger(m + n)
  {
  }

  lemma FromIntegerInjective(m: int, n: int)
    requires InInt64(m * MultFactor) && InInt64(n * MultFactor)
    ensures FromInteger(m) == FromInteger(n) <==> m == n
  {
  }

  lemma NegInvolution(d: Decimal)
    requires Valid(d) && InInt64(-d.numerator)
    ensures Neg(Neg(d)) == d
    ensures Neg(d).numerator == -d.numerator
  {
  }

  /** `abs` is |numerator| and ignores the sign of its argument. */
  lemma AbsIsMagnitude(d: Decimal)
    requires Valid(d) && InInt64(-d.numerator)
    ensures AbsDecimal(d).numerator == Abs(d.numerator)
    ensures AbsDecimal(Neg(d)) == AbsDecimal(d)
    ensures AbsDecimal(AbsDecimal(d)) == AbsDecimal(d)
  {
  }

  /** Multiplication by an integer is the same from either side and
      integer-constructed values stay integer-constructed. */
  lemma MulIntExact(a: int, k: int)
    requires InInt64(a * MultFactor) && InInt64(a * k * MultFactor)
    ensures MulInt(FromInteger(a), k) == FromInteger(a * k)
    ensures IntMul(k, FromInteger(a)) == FromInteger(a * k)
  {
    assert a * MultFactor * k == a * k * MultFactor;
  }

  /** |DivideNumerator(n, k)| is at most |n| + |k|/2, so the quotient never
      overflows when that sum does not. */
  lemma DivideNumeratorBound(n: int, k: int)
    requires k != 0
    ensures Abs(DivideNumerator(n, k)) == (Abs(n) + Abs(k) / 2) / Abs(k) <= Abs(n) + Abs(k) / 2
  {
    DivLe(Abs(n) + Abs(k) / 2, Abs(k));
  }

  lemma DivideNumeratorOdd(n: int, k: int)
    requires k != 0
    ensures DivideNumerator(-n, k) == -DivideNumerator(n, k) == DivideNumerator(n, -k)
  {
    assert Abs(-n) == Abs(n) && Abs(-k) == Abs(k);
  }

  lemma DivideNumeratorExact(n: int, k: int)
    requires k != 0
    ensures DivideNumerator(n * k, k) == n
  {
    var b := Abs(k);
    AbsMul(n, k);
    DivUnique(Abs(n) * b + b / 2, b, Abs(n), b / 2);
  }

  lemma DivideNumeratorHalfAway(n: int, k: int)
    requires k != 0
    ensures var q := Abs(DivideNumerator(n, k));
      && 2 * Abs(q * Abs(k) - Abs(n)) <= Abs(k)
      && (2 * Abs(q * Abs(k) - Abs(n)) == Abs(k) ==> q * Abs(k) > Abs(n))
  {
    var m, b := Abs(n), Abs(k);
    var q := (m + b / 2) / b;
    var r := (m + b / 2) % b;
    assert m + b / 2 == q * b + r;
    DivideNumeratorBound(n, k);
  }

  /** |c*k - n| measured on the non-negative scale of |n| and |k|. */
  lemma MagnitudeScale(n: int, k: int, c: int)
    ensures Abs(c * k - n) == Abs((if (n < 0) == (k < 0) then c else -c) * Abs(k) - Abs(n))
  {
    if k < 0 {
      assert c * k == -(c * Abs(k));
    }
  }

  lemma DivideNumeratorNearest(n: int, k: int, other: int)
    requires k != 0
    ensures Abs(DivideNumerator(n, k) * k - n) <= Abs(other * k - n)
  {
    var z := DivideNumerator(n, k);
    DivideNumeratorBound(n, k);
    DivideNumeratorHalfAway(n, k);
    SignedNearest(n, k, z, other);
  }

  /** A signed candidate z whose magnitude is within half a divisor on the
      magnitude scale, and whose sign is that of n/k, is a nearest multiple. */
  lemma SignedNearest(n: int, k: int, z: int, other: int)
    requires k != 0
    requires (if (n < 0) == (k < 0) then z else -z) == Abs(z)
    requires 2 * Abs(Abs(z) * Abs(k) - Abs(n)) <= Abs(k)
    ensures Abs(z * k - n) <= Abs(other * k - n)
  {
    MagnitudeScale(n, k, z);
    MagnitudeScale(n, k, other);
    NearestMultiple(Abs(n), Abs(k), Abs(z), if (n < 0) == (k < 0) then other else -other);
  }

  /** If q*b is within b/2 of m, then no other multiple of b is closer. */
  lemma NearestMultiple(m: int, b: nat, q: int, c: int)
    requires b > 0 && 2 * Abs(q * b - m) <= b
    ensures Abs(q * b - m) <= Abs(c * b - m)
  {
    if c < q {
      MulLe(c, q - 1, b);
      assert (q - 1) * b == q * b - b;
    } else if c > q {
      MulLe(q + 1, c, b);
      assert (q + 1) * b == q * b + b;
    }
  }

  /** Dividing a product by its integer factor gives back the Decimal:
      no rounding happens when the division is exact. */
  lemma DivIntUndoesMulInt(d: Decimal, k: int)
    requires InInt64(d.numerator * k) && DivIntDefined(MulInt(d, k), k)
    ensures DivInt(MulInt(d, k), k) == d
  {
    DivideNumeratorExact(d.numerator, k);
  }

  /** The magnitude q of the quotient is within half a divisor of the exact
      quotient's magnitude, and an exact half rounds away from zero. */
  lemma DivIntRoundsHalfAwayFromZero(d: Decimal, k: int)
    requires DivIntDefined(d, k)
    ensures var q := Abs(DivInt(d, k).numerator);
      && 2 * Abs(q * Abs(k) - Abs(d.numerator)) <= Abs(k)
      && (2 * Abs(q * Abs(k) - Abs(d.numerator)) == Abs(k) ==> q * Abs(k) > Abs(d.numerator))
  {
    DivideNumeratorHalfAway(d.numerator, k);
  }

  /** Rounding quality: no integer multiple of the divisor is closer to the
      numerator than the one DivInt picks. */
  lemma DivIntIsNearest(d: Decimal, k: int, other: int)
    requires DivIntDefined(d, k)
    ensures Abs(DivInt(d, k).numerator * k - d.numerator) <= Abs(other * k - d.numerator)
  {
    DivideNumeratorNearest(d.numerator, k, other);
  }

  /** Negating the dividend or the divisor negates the quotient. */
  lemma DivIntOddSymmetry(d: Decimal, k: int)
    requires DivIntDefined(d, k)
    ensures DivIntDefined(Neg(d), k) && DivIntDefined(d, -k)
    ensures InInt64(-DivInt(d, k).numerator)
    ensures DivInt(Neg(d), k) == Neg(DivInt(d, k)) == DivInt(d, -k)
  {
    DivideNumeratorOdd(d.numerator, k);
    DivideNumeratorBound(d.numerator, k);
  }

  /** The comparisons form a total order on numerators, and `==` on Decimals
      is equality of the values. */
  lemma CompareTotalOrder(a: Decimal, b: Decimal, c: Decimal)
    ensures Compare(Eq, a, b) <==> a == b
    ensures Compare(Ne, a, b) == !Compare(Eq, a, b)
    ensures Compare(Le, a, a)
    ensures Compare(Le, a, b) && Compare(Le, b, a) ==> a == b
    ensures Compare(Le, a, b) && Compare(Le, b, c) ==> Compare(Le, a, c)
    ensures Compare(Le, a, b) || Compare(Le, b, a)
    ensures Compare(Lt, a, b) <==> Compare(Le, a, b) && !Compare(Eq, a, b)
    ensures Compare(Gt, a, b) == Compare(Lt, b, a) && Compare(Ge, a, b) == Compare(Le, b, a)
  {
  }

  /** Comparing integer-constructed values is comparing the integers. */
  lemma CompareIntegers(op: CmpOp, m: int, n: int)
    requires InInt64(m * MultFactor) && InInt64(n * MultFactor)
    ensures CompareInt(op, FromInteger(m), n) == IntCmp(op, m, n)
  {
    if m < n {
      MulLe(m + 1, n, MultFactor);
    } else if n < m {
      MulLe(n + 1, m, MultFactor);
    }
  }

  /** Equal Decimals hash equal. */
  lemma HashRespectsEquality(h: int -> int, a: Decimal, b: Decimal)
    requires Compare(Eq, a, b)
    ensures Hash(h, a) == Hash(h, b)
  {
  }

  /** An integer-constructed value needs no fractional digit; 1.23 needs two. */
  lemma FractionDigitsExamples(n: int)
    requires InInt64(n * MultFactor)
    ensures FractionDigits(FromInteger(n).numerator) == 0
    ensures FractionDigits(12_300_000) == 2
  {
    MulModZero(n, MultFactor);
    Pow10Values();
    assert (12_300_000 * Pow10(2)) % MultFactor == 0;
    assert FractionDigitsFrom(12_300_000, 2) == 2;
  }
}
