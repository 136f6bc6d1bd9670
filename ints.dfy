/** Machine-integer ranges and powers of ten shared by the numeric core.
    Dafny integers are unbounded; the C++ code works in int64_t / uint64_t,
    so every operation that could overflow there carries a range precondition. */
module Ints {

  const INT64_MIN: int := -0x8000_0000_0000_0000
  const INT64_MAX: int := 0x7FFF_FFFF_FFFF_FFFF
  const UINT64_MAX: int := 0xFFFF_FFFF_FFFF_FFFF

  predicate InInt64(x: int) {
    INT64_MIN <= x <= INT64_MAX
  }

  function Abs(x: int): nat {
    if x < 0 then -x else x
  }

  function Min(a: int, b: int): int {
    if a < b then a else b
  }

  /** 10^k; plays the role of `stored_pow10(k)` (its table, base/pows10.h,
      is not part of this model). */
  function Pow10(k: nat): (r: nat)
    ensures r >= 1
    ensures k >= 1 ==> r >= 10
  {
    if k == 0 then 1 else 10 * Pow10(k - 1)
  }

  lemma {:induction false} Pow10Add(a: nat, b: nat)
    ensures Pow10(a + b) == Pow10(a) * Pow10(b)
  {
    if a > 0 {
      Pow10Add(a - 1, b);
      assert Pow10(a + b) == 10 * Pow10(a - 1 + b);
    }
  }

  lemma {:induction false} Pow10Monotone(a: nat, b: nat)
    requires a <= b
    ensures Pow10(a) <= Pow10(b)
  {
    if a < b {
      Pow10Monotone(a, b - 1);
    }
  }

  lemma Pow10Values()
    ensures Pow10(1) == 10 && Pow10(2) == 100 && Pow10(3) == 1000
    ensures Pow10(6) == 1_000_000 && Pow10(7) == 10_000_000
    ensures Pow10(9) == 1_000_000_000
    ensures Pow10(20) == 100_000_000_000_000_000_000
  {
  }

  // ---------------------------------------------------------------- arithmetic helpers

  lemma MulLe(x: int, y: int, b: nat)
    requires x <= y
    ensures x * b <= y * b && b * x <= b * y
  {
    assert (y - x) * b >= 0;
  }

  /** Euclidean division is unique. */
  lemma DivUnique(x: int, b: int, q: int, r: int)
    requires b > 0 && 0 <= r < b && x == q * b + r
    ensures x / b == q && x % b == r
  {
    var d, m := x / b, x % b;
    assert (d - q) * b == r - m;
    if d > q {
      MulLe(1, d - q, b);
    } else if d < q {
      MulLe(1, q - d, b);
    }
  }

  lemma MulModZero(n: int, b: int)
    requires b > 0
    ensures (n * b) % b == 0 && (n * b) / b == n
  {
    DivUnique(n * b, b, n, 0);
  }

  lemma DivLe(x: nat, b: int)
    requires b >= 1
    ensures 0 <= x / b <= x
  {
    var q, r := x / b, x % b;
    assert x == q * b + r;
    if q < 0 { MulLe(q, -1, b); }
    if q > x { MulLe(x + 1, q, b); MulLe(1, b, x + 1); }
  }

  lemma AbsMul(n: int, k: int)
    ensures Abs(n * k) == Abs(n) * Abs(k)
    ensures n * k < 0 <==> (n < 0 && k > 0) || (n > 0 && k < 0)
  {
    if n > 0 && k > 0 {
      MulLe(1, n, k);
    } else if n > 0 && k < 0 {
      MulLe(1, n, -k);
      assert n * k == -(n * -k);
    } else if n < 0 && k > 0 {
      MulLe(1, -n, k);
      assert n * k == -(-n * k);
    } else if n < 0 && k < 0 {
      MulLe(1, -n, -k);
      assert n * k == -n * -k;
    }
  }
}
