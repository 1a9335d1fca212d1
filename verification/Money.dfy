/** Half-up rounding and largest-remainder allocation of `crates/money`.

    Machine integers are subset types, so every assignment to a variable of such a
    type is a proof that the value fits; the places where the Rust code wraps or
    can panic are written out.  */
module Money {
  import opened Common

  const I64_MIN: int := -0x8000_0000_0000_0000
  const I64_MAX: int := 0x7FFF_FFFF_FFFF_FFFF
  const U64_MAX: int := 0xFFFF_FFFF_FFFF_FFFF
  const I128_MIN: int := -0x8000_0000_0000_0000_0000_0000_0000_0000
  const I128_MAX: int := 0x7FFF_FFFF_FFFF_FFFF_FFFF_FFFF_FFFF_FFFF
  const U128_MAX: int := 0xFFFF_FFFF_FFFF_FFFF_FFFF_FFFF_FFFF_FFFF

  type I64 = x: int | I64_MIN <= x <= I64_MAX
  type U64 = x: int | 0 <= x <= U64_MAX
  type I128 = x: int | I128_MIN <= x <= I128_MAX
  type U128 = x: int | 0 <= x <= U128_MAX

  datatype Currency = Currency(code: string)

  datatype MoneyError = CurrencyMismatch(left: Currency, right: Currency) | Overflow | InvalidAllocationWeights

  datatype Money = Money(amountMinor: I64, currency: Currency)

  function Abs(x: int): nat {
    if x < 0 then -x else x
  }

  /** `x as i64` for an unsigned `x`. */
  function WrapI64(x: U128): I64 {
    var low := x % (U64_MAX + 1);
    if low > I64_MAX then low - (U64_MAX + 1) else low
  }

  /** `x as i128`, and what a release build computes for `-x`. */
  function WrapI128(x: int): int {
    var low := x % (U128_MAX + 1);
    if low > I128_MAX then low - (U128_MAX + 1) else low
  }

  // ---------------------------------------------------------------- rounding

  /** The unsigned quotient the code computes before it restores the sign. */
  function RoundedMagnitude(n: nat, d: nat): nat
    requires d > 0
  {
    if n % d * 2 >= d then n / d + 1 else n / d
  }

  function RoundHalfUp(numerator: I128, denominator: I128): Result<I64, MoneyError> {
    if denominator == 0 then
      Err(Overflow)
    else
      var neg := (numerator < 0) != (denominator < 0);
      var rounded := RoundedMagnitude(Abs(numerator), Abs(denominator));
      var signed := SignCast(rounded, neg);
      if I64_MIN <= signed <= I64_MAX then Ok(signed) else Err(Overflow)
  }

  /** The cast of the magnitude to i128, and its negation as a release build computes it. */
  function SignCast(rounded: int, neg: bool): int {
    if neg then WrapI128(-WrapI128(rounded)) else WrapI128(rounded)
  }

  function ScaleHalfUp(m: Money, factorNum: I64, factorDen: I64): Result<Money, MoneyError> {
    if factorDen == 0 then
      Err(Overflow)
    else
      var product := m.amountMinor * factorNum;
      if !(I128_MIN <= product <= I128_MAX) then
        Err(Overflow)
      else
        match RoundHalfUp(product, factorDen)
        case Ok(amount) => Ok(Money(amount, m.currency))
        case Err(e) => Err(e)
  }

  /** `p`, a multiple of d, is the multiple nearest to n, the larger one in magnitude on a tie. */
  ghost predicate NearestMultiple(n: int, d: int, p: int) {
    && 2 * Abs(p - n) <= Abs(d)
    && (2 * Abs(p - n) == Abs(d) ==> Abs(p) >= Abs(n))
  }

  /** Nearest integer to n/d, ties going away from zero; says nothing about how it is found. */
  ghost predicate IsHalfUp(n: int, d: int, r: int) {
    NearestMultiple(n, d, r * d)
  }

  lemma {:induction false} MulMonotone(x: int, y: int, k: int)
    requires x <= y && k >= 0
    ensures x * k <= y * k
  {
    assert 0 <= (y - x) * k == y * k - x * k;
  }

  /** Multiples of d with different factors are at least d apart, and two d apart when zero
      lies between them. */
  lemma {:induction false} MultiplesApart(a: int, b: int, d: int)
    requires d > 0 && a < b
    ensures a * d + d <= b * d
    ensures a * d >= 0 || b * d <= 0 || a * d + 2 * d <= b * d
  {
    MulMonotone(a + 1, b, d);
    assert (a + 1) * d == a * d + d;
    if a >= 0 {
      MulMonotone(0, a, d);
    } else if b <= 0 {
      MulMonotone(b, 0, d);
    } else {
      MulMonotone(a + 2, b, d);
      assert (a + 2) * d == a * d + 2 * d;
    }
  }

  /** Multiples that far apart are not both nearest. */
  lemma {:induction false} NearestIsOne(n: int, d: int, p: int, q: int)
    requires d > 0 && p + d <= q && (p >= 0 || q <= 0 || p + 2 * d <= q)
    ensures !(NearestMultiple(n, d, p) && NearestMultiple(n, d, q))
  {
  }

  lemma {:induction false} HalfUpUniquePositive(n: int, d: int, a: int, b: int)
    requires d > 0 && NearestMultiple(n, d, a * d) && NearestMultiple(n, d, b * d)
    ensures a >= b
  {
    if a < b {
      MultiplesApart(a, b, d);
      NearestIsOne(n, d, a * d, b * d);
    }
  }

  lemma {:induction false} HalfUpUnique(n: int, d: int, a: int, b: int)
    requires d != 0 && IsHalfUp(n, d, a) && IsHalfUp(n, d, b)
    ensures a == b
  {
    if d > 0 {
      HalfUpUniquePositive(n, d, a, b);
      HalfUpUniquePositive(n, d, b, a);
    } else {
      HalfUpNegated(n, d, a);
      HalfUpNegated(n, d, b);
      HalfUpUniquePositive(n, -d, -a, -b);
      HalfUpUniquePositive(n, -d, -b, -a);
    }
  }

  lemma {:induction false} HalfUpNegated(n: int, d: int, r: int)
    requires IsHalfUp(n, d, r)
    ensures IsHalfUp(n, -d, -r)
  {
    assert (-r) * (-d) == r * d;
  }

  lemma {:induction false} MagnitudeIsHalfUp(n: nat, d: nat)
    requires d > 0
    ensures IsHalfUp(n, d, RoundedMagnitude(n, d))
  {
    var p, rem := n / d * d, n % d;
    QuotientTimes(n, d);
    MulMonotone(0, n / d, d);
    assert NearestMultiple(n, d, if rem * 2 >= d then p + d else p);
  }

  lemma {:induction false} QuotientTimes(n: nat, d: nat)
    requires d > 0
    ensures n / d * d + n % d == n && 0 <= n % d < d
    ensures RoundedMagnitude(n, d) * d == if n % d * 2 >= d then n / d * d + d else n / d * d
  {
    assert (n / d + 1) * d == n / d * d + d;
  }

  /** Only division by one keeps the whole magnitude. */
  lemma {:induction false} MagnitudeBound(n: nat, d: nat)
    requires d > 0
    ensures d == 1 ==> RoundedMagnitude(n, d) == n
    ensures d >= 2 ==> 2 * RoundedMagnitude(n, d) <= n + 2
  {
    if d >= 2 {
      MulMonotone(2, d, n / d);
    }
  }

  /** The sign the code picks turns a rounded magnitude into a rounded rational. */
  lemma {:induction false} SignedHalfUp(n: int, d: int, r: int)
    requires d != 0 && r >= 0 && IsHalfUp(Abs(n), Abs(d), r)
    ensures IsHalfUp(n, d, if (n < 0) != (d < 0) then -r else r)
  {
    var p := r * Abs(d);
    assert (-r) * d == -(r * d);
    assert r * (-d) == -(r * d);
    assert (if (n < 0) != (d < 0) then -r else r) * d == if n < 0 then -p else p;
    assert NearestMultiple(n, d, if n < 0 then -p else p);
  }

  /** The wrapping casts change nothing that ends up inside i64. */
  lemma {:induction false} WrapHarmless(m: int, neg: bool)
    requires 0 <= m <= I128_MAX + 1
    ensures var exact := if neg then -m else m;
            var signed := SignCast(m, neg);
            if I64_MIN <= exact <= I64_MAX then signed == exact else !(I64_MIN <= signed <= I64_MAX)
  {
  }

  /** The rounded magnitude with its sign, before any cast. */
  function ExactRounding(n: int, d: int): int
    requires d != 0
  {
    var m := RoundedMagnitude(Abs(n), Abs(d)) as int;
    if (n < 0) != (d < 0) then 0 - m else m
  }

  lemma {:induction false} ExactIsHalfUp(n: int, d: int)
    requires d != 0
    ensures IsHalfUp(n, d, ExactRounding(n, d))
  {
    MagnitudeIsHalfUp(Abs(n), Abs(d));
    SignedHalfUp(n, d, RoundedMagnitude(Abs(n), Abs(d)));
  }

  lemma {:induction false} CastsKeepExact(n: I128, d: I128)
    requires d != 0
    ensures var r := ExactRounding(n, d);
            RoundHalfUp(n, d) == if I64_MIN <= r <= I64_MAX then Ok(r) else Err(Overflow)
  {
    MagnitudeBound(Abs(n), Abs(d));
    WrapHarmless(RoundedMagnitude(Abs(n), Abs(d)), (n < 0) != (d < 0));
  }

  /** RoundHalfUp succeeds with exactly the half-up rounding, and fails exactly when the
      denominator is zero or that rounding does not fit in an i64. */
  lemma {:induction false} RoundHalfUpIsHalfUp(n: I128, d: I128, r: int)
    requires d != 0
    ensures IsHalfUp(n, d, r) ==>
              RoundHalfUp(n, d) == if I64_MIN <= r <= I64_MAX then Ok(r) else Err(Overflow)
    ensures RoundHalfUp(n, d) == Ok(r) ==> IsHalfUp(n, d, r)
  {
    CastsKeepExact(n, d);
    ExactIsHalfUp(n, d);
    if IsHalfUp(n, d, r) {
      HalfUpUnique(n, d, r, ExactRounding(n, d));
    }
  }

  /** The one arithmetic overflow: negating 2^127, for i128::MIN over 1 and nothing else.
      A debug build panics there; a release build wraps and still reports Overflow. */
  lemma {:induction false} NegationOverflowsExactly(n: I128, d: I128)
    requires d != 0
    ensures ((n < 0) != (d < 0) && WrapI128(RoundedMagnitude(Abs(n), Abs(d))) == I128_MIN)
        <==> n == I128_MIN && d == 1
    ensures Abs(n) % Abs(d) * 2 <= U128_MAX && RoundedMagnitude(Abs(n), Abs(d)) <= U128_MAX
  {
    MagnitudeBound(Abs(n), Abs(d));
  }

  lemma {:induction false} HalfUpOdd(n: int, d: int, r: int)
    requires IsHalfUp(n, d, r)
    ensures IsHalfUp(-n, d, -r)
  {
    assert (-r) * d == -(r * d);
  }

  /** Rounding is odd in the numerator, up to the asymmetric i64 range. */
  lemma {:induction false} RoundHalfUpOdd(n: I128, d: I128)
    requires d != 0 && n != I128_MIN
    ensures RoundHalfUp(n, d).Ok? && RoundHalfUp(n, d).value != I64_MIN ==>
              RoundHalfUp(-n, d) == Ok(-RoundHalfUp(n, d).value)
  {
    if RoundHalfUp(n, d).Ok? && RoundHalfUp(n, d).value != I64_MIN {
      var r: int := RoundHalfUp(n, d).value;
      RoundHalfUpIsHalfUp(n, d, r);
      HalfUpOdd(n, d, r);
      RoundHalfUpIsHalfUp(-n, d, -r);
    }
  }

  /** The product of two i64 always fits in an i128, so scaling fails only for a zero
      denominator or a rounded value outside i64. */
  lemma {:induction false} ScaleHalfUpExact(m: Money, num: I64, den: I64, r: int)
    requires den != 0
    requires IsHalfUp(m.amountMinor * num, den, r)
    ensures ScaleHalfUp(m, num, den)
         == if I64_MIN <= r <= I64_MAX then Ok(Money(r, m.currency)) else Err(Overflow)
    ensures !(m.amountMinor * num == I128_MIN && den == 1)
  {
    ProductBound(m.amountMinor, num, -I64_MIN, -I64_MIN);
    RoundHalfUpIsHalfUp(m.amountMinor * num, den, r);
  }

  /** A zero denominator is reported as overflow by both. */
  lemma {:induction false} ZeroDenominator(n: I128, m: Money, num: I64)
    ensures RoundHalfUp(n, 0) == Err(Overflow) && ScaleHalfUp(m, num, 0) == Err(Overflow)
  {
  }

  lemma {:induction false} ProductBound(a: int, b: int, x: nat, y: nat)
    requires Abs(a) <= x && Abs(b) <= y
    ensures Abs(a * b) <= x * y
  {
    AbsProduct(a, b);
    MulMonotone(Abs(a), x, Abs(b));
    MulMonotone(Abs(b), y, x);
  }

  lemma {:induction false} AbsProduct(a: int, b: int)
    ensures Abs(a * b) == Abs(a) * Abs(b)
  {
    if a >= 0 {
      SignedProduct(a, b);
    } else {
      SignedProduct(-a, b);
      assert (-a) * b == -(a * b);
    }
  }

  lemma {:induction false} SignedProduct(a: int, b: int)
    requires a >= 0
    ensures Abs(a * b) == a * Abs(b)
  {
    if b >= 0 {
      MulMonotone(0, a, b);
    } else {
      MulMonotone(0, a, -b);
      assert a * (-b) == -(a * b);
    }
  }
}
