/*
 * Floating-point GCD and conversion to fractions (gcd.c): gcd,
 * gcd_verified, my_round and f_to_fraction.
 *
 * A double is an exact real (`Float.Finite`) or a non-finite value.  The
 * relative tolerances epsilon and small_epsilon are taken as 0, so every
 * "close enough" comparison of the source becomes an exact one.  The loop
 * bound of gcd is a parameter `tries`: the source runs the loop while its
 * counter stays below GCD_TRIES.
 */
module Fractions {
  import opened Tokens
  import IntGcd

  /** Relative tolerance of gcd and f_to_fraction (exact model). */
  const EPSILON: real := 0.0
  /** Relative tolerance of f_to_fraction's accuracy checks (exact model). */
  const SMALL_EPSILON: real := 0.0

  /** gcd gives up when its counter reaches this. */
  const GCD_TRIES: nat := 50
  /** A loop bound under which gcd is exact for all integers below MAX_K_INTEGER. */
  const GCD_TRIES_CORRECTED: nat := 100

  /** f_to_fraction allows at most 11 digits above and below the bar. */
  const FRACTION_LIMIT: real := 1000000000000.0

  function Abs(x: real): (r: real)
    ensures r >= 0.0 && (r == x || r == -x)
  {
    if x < 0.0 then -x else x
  }

  predicate IsIntegral(x: real) {
    x.Floor as real == x
  }

  lemma WholeIsIntegral(k: int)
    ensures IsIntegral(k as real)
  {
  }

  lemma FloorBounds(x: real)
    ensures x.Floor as real <= x < x.Floor as real + 1.0
  {
  }

  /** The floor is the one integer at most x and above x - 1. */
  lemma FloorUnique(x: real, n: int)
    requires n as real <= x < n as real + 1.0
    ensures x.Floor == n
  {
  }

  lemma DivPositive(a: real, b: real)
    requires a > 0.0 && b > 0.0
    ensures a / b > 0.0
  {
  }

  lemma QuotientTimes(x: real, y: real)
    requires y != 0.0
    ensures y * (x / y) == x
  {
  }

  lemma TimesQuotient(y: real, k: real)
    requires y != 0.0
    ensures (y * k) / y == k
  {
  }

  lemma RealProduct(a: int, b: int)
    ensures (a * b) as real == a as real * b as real
  {
  }

  lemma MulMonotone(y: real, a: real, b: real)
    requires y > 0.0 && a <= b
    ensures y * a <= y * b
  {
  }

  lemma MulStrict(y: real, a: real, b: real)
    requires y > 0.0 && a < b
    ensures y * a < y * b
  {
  }

  /** x lies between the multiples of y just below and just above it. */
  lemma FloorDecomposition(x: real, y: real)
    requires y > 0.0
    ensures var k := (x / y).Floor as real; y * k <= x < y * k + y
  {
    var q := x / y;
    var k := q.Floor as real;
    FloorBounds(q);
    assert k <= q < k + 1.0;
    QuotientTimes(x, y);
    assert y * q == x;
    MulMonotone(y, k, q);
    assert y * k <= y * q;
    MulStrict(y, q, k + 1.0);
    assert y * q < y * (k + 1.0);
    assert y * (k + 1.0) == y * k + y;
    assert x < y * k + y;
  }

  /** fmod for a non-negative dividend: what is left after whole divisors. */
  function FMod(x: real, y: real): (r: real)
    requires x >= 0.0 && y > 0.0
    ensures 0.0 <= r < y
    ensures IsIntegral((x - r) / y)
  {
    var k := (x / y).Floor as real;
    FloorDecomposition(x, y);
    WholeIsIntegral((x / y).Floor);
    TimesQuotient(y, k);
    assert (x - (x - y * k)) / y == k;
    x - y * k
  }

  // ----- gcd -----

  /**
   * The remainder loop of gcd from iteration `count` on: `larger` and
   * `divisor` are the current pair and `limit` the tolerance fixed before
   * the loop.  The result is 0 (failure) or one of the divisors, never
   * more than the current one.
   */
  function EuclidFrom(larger: real, divisor: real, limit: real, count: nat, tries: nat): (r: real)
    requires larger >= 0.0 && divisor > 0.0 && limit >= 0.0
    ensures 0.0 <= r <= divisor
    decreases tries - count
  {
    if count >= tries then 0.0
    else
      var rem := FMod(larger, divisor);
      if rem <= limit || Abs(divisor - rem) <= limit then
        (if rem != 0.0 && divisor <= 100.0 * limit then 0.0 else divisor)
      else
        EuclidFrom(divisor, rem, limit, count + 1, tries)
  }

  /**
   * What gcd(d1, d2) returns when its loop gives up after the counter
   * reaches `tries`: 0 on failure, otherwise a positive common divisor.
   */
  function GcdOf(d1: Float, d2: Float, tries: nat): (r: real)
    ensures r >= 0.0
  {
    if !d1.Finite? || !d2.Finite? then 0.0
    else
      var a, b := Abs(d1.r), Abs(d2.r);
      if a == 0.0 then b
      else if b == 0.0 then a
      else
        var larger, divisor := if a > b then a else b, if a > b then b else a;
        var limit := larger * EPSILON;
        if divisor <= limit || larger >= MAX_K_INTEGER then 0.0
        else EuclidFrom(larger, divisor, limit, 1, tries)
  }

  /** gcd, with the loop bound as a parameter (the source uses GCD_TRIES). */
  method Gcd(d1: Float, d2: Float, tries: nat) returns (r: real)
    ensures r == GcdOf(d1, d2, tries)
    ensures !d1.Finite? || !d2.Finite? ==> r == 0.0
    ensures d1 == Finite(0.0) && d2.Finite? ==> r == Abs(d2.r)
    ensures d2 == Finite(0.0) && d1.Finite? ==> r == Abs(d1.r)
    ensures (d1.Finite? && d2.Finite? && d1.r != 0.0 && d2.r != 0.0 &&
             (Abs(d1.r) >= MAX_K_INTEGER || Abs(d2.r) >= MAX_K_INTEGER)) ==> r == 0.0
  {
    if !d1.Finite? || !d2.Finite? {
      return 0.0;
    }
    var a := Abs(d1.r);
    var b := Abs(d2.r);
    if a == 0.0 {
      return b;
    }
    if b == 0.0 {
      return a;
    }
    var larger, divisor;
    if a > b {
      larger, divisor := a, b;
    } else {
      larger, divisor := b, a;
    }
    var lowerLimit := larger * EPSILON;
    if divisor <= lowerLimit || larger >= MAX_K_INTEGER {
      return 0.0;
    }
    ghost var result := EuclidFrom(larger, divisor, lowerLimit, 1, tries);
    var count := 1;
    while count < tries
      invariant count >= 1
      invariant larger >= 0.0 && divisor > 0.0 && lowerLimit >= 0.0
      invariant EuclidFrom(larger, divisor, lowerLimit, count, tries) == result
      decreases tries - count
    {
      var remainder := FMod(larger, divisor);
      if remainder <= lowerLimit || Abs(divisor - remainder) <= lowerLimit {
        if remainder != 0.0 && divisor <= 100.0 * lowerLimit {
          return 0.0;
        }
        return divisor;
      }
      larger := divisor;
      divisor := remainder;
      count := count + 1;
    }
    return 0.0;
  }

  // ----- the loop on whole numbers and on fractions -----

  function IntAbs(x: int): nat {
    if x < 0 then -x else x
  }

  /** fmod is the remainder of the one decomposition x = k * y + r. */
  lemma FModExact(x: real, y: real, k: nat, r: real)
    requires y > 0.0 && 0.0 <= r < y && x == (k as real) * y + r
    ensures x >= 0.0 && FMod(x, y) == r
  {
    MulMonotone(y, 0.0, k as real);
    DivOfSum(k as real, y, r);
    assert x / y == k as real + r / y;
    FractionBelowOne(r, y);
    FloorUnique(x / y, k);
  }

  lemma DivOfSum(k: real, y: real, r: real)
    requires y > 0.0
    ensures (k * y + r) / y == k + r / y
  {
  }

  lemma FractionBelowOne(r: real, y: real)
    requires y > 0.0 && 0.0 <= r < y
    ensures 0.0 <= r / y < 1.0
  {
    assert r / y == r * (1.0 / y);
    assert 1.0 / y > 0.0;
  }

  /** On fractions with a common denominator fmod is the integer remainder. */
  lemma FModRational(m: nat, n: nat, q: nat)
    requires n > 0 && q > 0
    ensures FMod(m as real / q as real, n as real / q as real) == (m % n) as real / q as real
  {
    var k, r := m / n, m % n;
    assert m == k * n + r;
    var qr := q as real;
    assert m as real / qr == (k as real) * (n as real / qr) + r as real / qr;
    assert r as real / qr < n as real / qr;
    FModExact(m as real / qr, n as real / qr, k, r as real / qr);
  }

  /** One iteration that neither stops nor gives up moves to the next pair. */
  lemma EuclidStep(x: real, y: real, count: nat, tries: nat)
    requires x >= 0.0 && y > 0.0 && count < tries && FMod(x, y) > 0.0
    ensures EuclidFrom(x, y, 0.0, count, tries) == EuclidFrom(y, FMod(x, y), 0.0, count + 1, tries)
  {
  }

  /** An iteration whose remainder is zero returns the divisor. */
  lemma EuclidStop(x: real, y: real, count: nat, tries: nat)
    requires x >= 0.0 && y > 0.0 && count < tries && FMod(x, y) == 0.0
    ensures EuclidFrom(x, y, 0.0, count, tries) == y
  {
  }

  /**
   * On m/q and n/q the loop follows Euclid on m and n: it returns
   * gcd(m, n)/q when Euclid's steps fit before the counter reaches
   * `tries`, and 0 otherwise.
   */
  lemma {:induction false} EuclidRational(m: nat, n: nat, q: nat, count: nat, tries: nat)
    requires n > 0 && q > 0
    ensures EuclidFrom(m as real / q as real, n as real / q as real, 0.0, count, tries) ==
            if count + IntGcd.Steps(m, n) <= tries then IntGcd.Gcd(m, n) as real / q as real else 0.0
    decreases tries - count
  {
    if count < tries {
      FModRational(m, n, q);
      if m % n == 0 {
        EuclidStop(m as real / q as real, n as real / q as real, count, tries);
      } else {
        assert (m % n) as real / q as real > 0.0;
        EuclidStep(m as real / q as real, n as real / q as real, count, tries);
        EuclidRational(n, m % n, q, count + 1, tries);
      }
    }
  }

  /** The same on whole numbers. */
  lemma EuclidExact(m: nat, n: nat, count: nat, tries: nat)
    requires n > 0
    ensures EuclidFrom(m as real, n as real, 0.0, count, tries) ==
            if count + IntGcd.Steps(m, n) <= tries then IntGcd.Gcd(m, n) as real else 0.0
  {
    EuclidRational(m, n, 1, count, tries);
    assert m as real / 1.0 == m as real && n as real / 1.0 == n as real;
  }

  /**
   * gcd on whole numbers below MAX_K_INTEGER: Euclid's gcd when one
   * operand is zero or Euclid's steps fit in the loop, 0 otherwise.
   */
  lemma GcdOfIntegers(x: int, y: int, tries: nat)
    requires IntAbs(x) < 1000000000000000 && IntAbs(y) < 1000000000000000
    ensures var m, n := IntAbs(x), IntAbs(y);
            GcdOf(Finite(x as real), Finite(y as real), tries) ==
            if m != 0 && n != 0 && 1 + IntGcd.Steps(Max(m, n), Min(m, n)) > tries then 0.0
            else IntGcd.Gcd(m, n) as real
  {
    var m, n := IntAbs(x), IntAbs(y);
    GcdOfAbs(x, y, tries);
    if m == 0 || n == 0 {
      GcdOfZero(m, n, tries);
    } else if n <= m {
      GcdOfOrdered(m, n, tries);
    } else {
      GcdOfOrdered(n, m, tries);
      IntGcd.GcdSymmetric(m, n);
    }
  }

  /** gcd only sees the magnitudes of its operands. */
  lemma GcdOfAbs(x: int, y: int, tries: nat)
    ensures GcdOf(Finite(x as real), Finite(y as real), tries) ==
            GcdOf(Finite(IntAbs(x) as real), Finite(IntAbs(y) as real), tries)
  {
    AbsOfWhole(x);
    AbsOfWhole(y);
    AbsOfWhole(IntAbs(x));
    AbsOfWhole(IntAbs(y));
  }

  lemma AbsOfWhole(k: int)
    ensures Abs(k as real) == IntAbs(k) as real
  {
  }

  /** gcd(0, n) and gcd(m, 0) agree with Euclid. */
  lemma GcdOfZero(m: nat, n: nat, tries: nat)
    requires m == 0 || n == 0
    ensures GcdOf(Finite(m as real), Finite(n as real), tries) == IntGcd.Gcd(m, n) as real
  {
    assert IntGcd.Gcd(0, n) == IntGcd.Gcd(n, 0);
  }

  /** gcd on whole n <= m below MAX_K_INTEGER, in either order. */
  lemma GcdOfOrdered(m: nat, n: nat, tries: nat)
    requires 1 <= n <= m < 1000000000000000
    ensures GcdOf(Finite(m as real), Finite(n as real), tries) ==
            if 1 + IntGcd.Steps(m, n) <= tries then IntGcd.Gcd(m, n) as real else 0.0
    ensures GcdOf(Finite(n as real), Finite(m as real), tries) ==
            GcdOf(Finite(m as real), Finite(n as real), tries)
  {
    assert m as real * EPSILON == 0.0;
    EuclidExact(m, n, 1, tries);
  }

  /**
   * With the corrected loop bound gcd is exact on every pair of integers
   * below MAX_K_INTEGER, as gcd.c promises.
   */
  lemma GcdCorrectedExact(x: int, y: int)
    requires IntAbs(x) < 1000000000000000 && IntAbs(y) < 1000000000000000
    ensures GcdOf(Finite(x as real), Finite(y as real), GCD_TRIES_CORRECTED) ==
            IntGcd.Gcd(IntAbs(x), IntAbs(y)) as real
  {
    var m, n := IntAbs(x), IntAbs(y);
    GcdOfIntegers(x, y, GCD_TRIES_CORRECTED);
    if m != 0 && n != 0 {
      IntGcd.StepsBelowMaxK(Max(m, n), Min(m, n));
    }
  }

  /**
   * gcd as written fails on 32951280099 and 20365011074, two coprime
   * integers far below MAX_K_INTEGER: Euclid needs 50 iterations and the
   * loop stops after 49.  With the corrected bound the result is exact.
   */
  lemma FibonacciCounterexample()
    ensures 32951280099.0 < MAX_K_INTEGER
    ensures IntGcd.Gcd(32951280099, 20365011074) == 1
    ensures GcdOf(Finite(32951280099.0), Finite(20365011074.0), GCD_TRIES) == 0.0
    ensures GcdOf(Finite(32951280099.0), Finite(20365011074.0), GCD_TRIES_CORRECTED) == 1.0
  {
    IntGcd.FibValues();
    IntGcd.FibSteps(51);
    GcdOfIntegers(32951280099, 20365011074, GCD_TRIES);
    GcdOfIntegers(32951280099, 20365011074, GCD_TRIES_CORRECTED);
  }

  /** gcd reports 1 on two integers only when they are coprime. */
  lemma GcdOneCoprime(x: int, y: int, tries: nat)
    requires GcdOf(Finite(x as real), Finite(y as real), tries) == 1.0
    ensures IntGcd.Gcd(IntAbs(x), IntAbs(y)) == 1
  {
    var m, n := IntAbs(x), IntAbs(y);
    assert Abs(x as real) == m as real && Abs(y as real) == n as real;
    if m == 0 || n == 0 || (m < 1000000000000000 && n < 1000000000000000) {
      GcdOfIntegers(x, y, tries);
      if m == 0 && n > 0 {
        assert IntGcd.Gcd(0, n) == IntGcd.Gcd(n, 0);
      }
    }
  }

  // ----- gcd_verified -----

  /**
   * What gcd_verified(d1, d2) returns: the gcd when both operands divided
   * by it are integers whose own gcd is 1, otherwise 0.
   */
  function GcdVerifiedOf(d1: Float, d2: Float, tries: nat): (r: real)
    ensures r >= 0.0
    ensures r != 0.0 ==> r == GcdOf(d1, d2, tries) && d1.Finite? && d2.Finite?
  {
    var divisor := GcdOf(d1, d2, tries);
    if divisor != 0.0 then
      var d3, d4 := d1.r / divisor, d2.r / divisor;
      if !IsIntegral(d3) || !IsIntegral(d4) then 0.0
      else if GcdOf(Finite(d3), Finite(d4), tries) != 1.0 then 0.0
      else divisor
    else divisor
  }

  /** gcd_verified */
  method GcdVerified(d1: Float, d2: Float, tries: nat) returns (r: real)
    ensures r == GcdVerifiedOf(d1, d2, tries)
  {
    var divisor := Gcd(d1, d2, tries);
    if divisor != 0.0 {
      var d3 := d1.r / divisor;
      var d4 := d2.r / divisor;
      if !IsIntegral(d3) || !IsIntegral(d4) {
        return 0.0;
      }
      var g := Gcd(Finite(d3), Finite(d4), tries);
      if g != 1.0 {
        return 0.0;
      }
    }
    return divisor;
  }

  /**
   * A non-zero result of gcd_verified is a true greatest common divisor:
   * both operands are whole multiples of it and the two multiples are
   * coprime.
   */
  lemma GcdVerifiedSound(d1: Float, d2: Float, tries: nat)
    requires GcdVerifiedOf(d1, d2, tries) != 0.0
    ensures var r := GcdVerifiedOf(d1, d2, tries);
            IsIntegral(d1.r / r) && IsIntegral(d2.r / r) &&
            IntGcd.Gcd(IntAbs((d1.r / r).Floor), IntAbs((d2.r / r).Floor)) == 1
  {
    var r := GcdVerifiedOf(d1, d2, tries);
    var d3, d4 := d1.r / r, d2.r / r;
    assert IsIntegral(d3) && IsIntegral(d4) && GcdOf(Finite(d3), Finite(d4), tries) == 1.0;
    GcdOneCoprime(d3.Floor, d4.Floor, tries);
  }

  /**
   * With the corrected loop bound gcd_verified gives Euclid's gcd on all
   * integers below MAX_K_INTEGER.
   */
  lemma GcdVerifiedIntegers(x: int, y: int)
    requires IntAbs(x) < 1000000000000000 && IntAbs(y) < 1000000000000000
    ensures GcdVerifiedOf(Finite(x as real), Finite(y as real), GCD_TRIES_CORRECTED) ==
            IntGcd.Gcd(IntAbs(x), IntAbs(y)) as real
  {
    var m, n := IntAbs(x), IntAbs(y);
    GcdCorrectedExact(x, y);
    if m > 0 || n > 0 {
      var g := IntGcd.Gcd(m, n);
      IntGcd.GcdDivides(m, n);
      var a' := Cofactor(x, g);
      var b' := Cofactor(y, g);
      IntGcd.CoprimeFactors(m, n, g, IntAbs(a'), IntAbs(b'));
      GcdCorrectedExact(a', b');
      GcdVerifiedAccepts(Finite(x as real), Finite(y as real), GCD_TRIES_CORRECTED, g as real, a', b');
    }
  }

  /** gcd_verified keeps a divisor whose cofactors are whole and coprime by gcd. */
  lemma GcdVerifiedAccepts(d1: Float, d2: Float, tries: nat, g: real, k1: int, k2: int)
    requires d1.Finite? && d2.Finite? && g != 0.0 && GcdOf(d1, d2, tries) == g
    requires d1.r / g == k1 as real && d2.r / g == k2 as real
    requires GcdOf(Finite(k1 as real), Finite(k2 as real), tries) == 1.0
    ensures GcdVerifiedOf(d1, d2, tries) == g
  {
    WholeIsIntegral(k1);
    WholeIsIntegral(k2);
    assert k1 as real / 1.0 == k1 as real;
  }

  /** Dividing a multiple of `g` by `g`, on integers and on reals alike. */
  lemma Cofactor(x: int, g: nat) returns (k: int)
    requires g > 0 && IntAbs(x) % g == 0
    ensures x as real / g as real == k as real
    ensures IntAbs(x) == g * IntAbs(k) && IntAbs(k) <= IntAbs(x)
  {
    var c := IntAbs(x) / g;
    assert IntAbs(x) == g * c + IntAbs(x) % g;
    IntGcd.MulNonneg(g - 1, c);
    k := if x < 0 then -c else c;
    assert x == g * k;
    RealProduct(g, k);
    TimesQuotient(g as real, k as real);
  }

  // ----- my_round -----

  /**
   * my_round: the integer part of d + 1/2 for d >= 0 and of d - 1/2
   * otherwise, both truncated toward zero as modf does.
   */
  function MyRound(d: real): (r: real)
    ensures IsIntegral(r)
    ensures Abs(r - d) <= 0.5
    ensures Abs(r - d) == 0.5 ==> Abs(r) > Abs(d)
    ensures d >= 0.0 ==> r >= 0.0
    ensures d <= 0.0 ==> r <= 0.0
    ensures IsIntegral(d) ==> r == d
  {
    if d >= 0.0 then
      var f := (d + 0.5).Floor;
      FloorBounds(d + 0.5);
      WholeIsIntegral(f);
      if IsIntegral(d) then FloorUnique(d + 0.5, d.Floor); f as real else f as real
    else
      var f := (0.5 - d).Floor;
      FloorBounds(0.5 - d);
      WholeIsIntegral(-f);
      if IsIntegral(d) then FloorUnique(0.5 - d, -d.Floor); -(f as real) else -(f as real)
  }

  /** my_round picks a nearest integer. */
  lemma MyRoundNearest(d: real, k: int)
    ensures Abs(MyRound(d) - d) <= Abs(k as real - d)
  {
    var r := MyRound(d);
    assert r.Floor as real == r;
    if k as real < r {
      assert k <= r.Floor - 1;
    } else if k as real > r {
      assert k >= r.Floor + 1;
    }
  }

  // ----- f_to_fraction -----

  /** The outcome and the two outputs of f_to_fraction. */
  datatype Fraction = Fraction(ok: bool, numerator: Float, denominator: real)

  /**
   * What f_to_fraction(d) returns.  A failure leaves the outputs at
   * (d, 1); an integral d is returned as it is.
   */
  function FractionOf(d: Float, tries: nat): (f: Fraction)
    ensures !f.ok ==> f.numerator == d && f.denominator == 1.0
    ensures f.ok ==> d.Finite? && f.numerator.Finite?
    ensures d.Finite? && IsIntegral(d.r) ==> f == Fraction(true, d, 1.0)
  {
    if !d.Finite? then Fraction(false, d, 1.0)
    else
      var x := d.r;
      if IsIntegral(x) then Fraction(true, d, 1.0)
      else
        var k3 := Abs(x) * SMALL_EPSILON;
        var k4 := MyRound(x);
        if k4 != 0.0 && Abs(k4 - x) <= k3 then Fraction(true, Finite(k4), 1.0)
        else FractionFromGcd(d, GcdOf(Finite(1.0), d, tries), tries)
  }

  /**
   * The second half of f_to_fraction: given divisor = gcd(1, d), scale d
   * and 1 by it, reduce, and keep the result if it is within the digit
   * limits and reproduces d.
   */
  function FractionFromGcd(d: Float, divisor: real, tries: nat): (f: Fraction)
    requires d.Finite?
    ensures !f.ok ==> f.numerator == d && f.denominator == 1.0
    ensures f.ok ==> f.numerator.Finite?
  {
    if divisor > EPSILON then
      var numerator := MyRound(d.r / divisor);
      var denominator := MyRound(1.0 / divisor);
      if Abs(numerator) >= FRACTION_LIMIT then Fraction(false, d, 1.0)
      else if denominator >= FRACTION_LIMIT || denominator < 2.0 then Fraction(false, d, 1.0)
      else
        var g := GcdOf(Finite(numerator), Finite(denominator), tries);
        var num := if g > 1.0 then numerator / g else numerator;
        var den := if g > 1.0 then DivPositive(denominator, g); denominator / g else denominator;
        if Abs(num / den - d.r) > SMALL_EPSILON * Abs(num / den) then Fraction(false, d, 1.0)
        else Fraction(true, Finite(num), den)
    else Fraction(false, d, 1.0)
  }

  /** f_to_fraction, with the loop bound of gcd as a parameter. */
  method FToFraction(d: Float, tries: nat) returns (ok: bool, numerator: Float, denominator: real)
    ensures Fraction(ok, numerator, denominator) == FractionOf(d, tries)
  {
    numerator, denominator := d, 1.0;
    if !d.Finite? {
      return false, numerator, denominator;
    }
    var x := d.r;
    if IsIntegral(x) {
      return true, numerator, denominator;
    }
    var k3 := Abs(x) * SMALL_EPSILON;
    var k4 := MyRound(x);
    if k4 != 0.0 && Abs(k4 - x) <= k3 {
      numerator := Finite(k4);
      return true, numerator, denominator;
    }
    var divisor := Gcd(Finite(1.0), d, tries);
    FractionGoesThroughGcd(d, tries);
    if divisor > EPSILON {
      var num := MyRound(x / divisor);
      var den := MyRound(1.0 / divisor);
      if Abs(num) >= FRACTION_LIMIT {
        return false, numerator, denominator;
      }
      if den >= FRACTION_LIMIT || den < 2.0 {
        return false, numerator, denominator;
      }
      divisor := Gcd(Finite(num), Finite(den), tries);
      if divisor > 1.0 {
        num := num / divisor;
        DivPositive(den, divisor);
        den := den / divisor;
      }
      k3 := num / den;
      if Abs(k3 - x) > SMALL_EPSILON * Abs(k3) {
        return false, numerator, denominator;
      }
      return true, Finite(num), den;
    }
    return false, numerator, denominator;
  }

  // ----- what f_to_fraction guarantees -----

  /**
   * The reduction step of f_to_fraction on whole n0 and d0 within the
   * digit limits.  When gcd(n0, d0) is above 1, dividing by it gives whole
   * k1 and k2 no larger than n0 and d0, and coprime; when it is 1 the
   * pair was coprime already.
   */
  lemma ReduceSound(n0: int, d0: nat, tries: nat) returns (k1: int, k2: int)
    requires IntAbs(n0) < 1000000000000 && 2 <= d0 < 1000000000000
    ensures var g := GcdOf(Finite(n0 as real), Finite(d0 as real), tries);
            if g > 1.0 then n0 as real / g == k1 as real && d0 as real / g == k2 as real
            else k1 == n0 && k2 == d0
    ensures IntAbs(k1) <= IntAbs(n0) && 1 <= k2 <= d0
    ensures var g := GcdOf(Finite(n0 as real), Finite(d0 as real), tries);
            g != 0.0 ==> IntGcd.Gcd(IntAbs(k1), IntAbs(k2)) == 1
  {
    var g := GcdOf(Finite(n0 as real), Finite(d0 as real), tries);
    GcdOfIntegers(n0, d0, tries);
    var h := IntGcd.Gcd(IntAbs(n0), d0);
    assert g == 0.0 || g == h as real;
    k1, k2 := n0, d0;
    if g > 1.0 {
      k1, k2 := DivideByGcd(n0, d0);
    }
  }

  /** Dividing n0 and d0 by their gcd gives coprime whole numbers. */
  lemma DivideByGcd(n0: int, d0: nat) returns (k1: int, k2: int)
    requires d0 > 0
    ensures var h := IntGcd.Gcd(IntAbs(n0), d0);
            h > 0 && n0 as real / h as real == k1 as real && d0 as real / h as real == k2 as real
    ensures IntAbs(k1) <= IntAbs(n0) && 1 <= k2 <= d0
    ensures IntGcd.Gcd(IntAbs(k1), IntAbs(k2)) == 1
  {
    var m := IntAbs(n0);
    IntGcd.GcdDivides(m, d0);
    var h := IntGcd.Gcd(m, d0);
    k1 := Cofactor(n0, h);
    k2 := Cofactor(d0, h);
    IntGcd.CoprimeFactors(m, d0, h, IntAbs(k1), IntAbs(k2));
  }

  /** With the corrected loop bound the reducing gcd never gives up. */
  lemma ReduceCorrected(n0: int, d0: nat)
    requires IntAbs(n0) < 1000000000000 && 2 <= d0 < 1000000000000
    ensures GcdOf(Finite(n0 as real), Finite(d0 as real), GCD_TRIES_CORRECTED) != 0.0
  {
    GcdCorrectedExact(n0, d0);
    IntGcd.GcdDivides(IntAbs(n0), d0);
  }

  /** A non-integral d that f_to_fraction accepts goes through gcd(1, d). */
  lemma FractionGoesThroughGcd(d: Float, tries: nat)
    requires d.Finite? && !IsIntegral(d.r)
    ensures FractionOf(d, tries) == FractionFromGcd(d, GcdOf(Finite(1.0), d, tries), tries)
  {
    assert Abs(d.r) * SMALL_EPSILON == 0.0;
  }

  /**
   * On success for a non-integral d, f_to_fraction returns whole
   * numbers with at most 11 digits, a denominator of at least 2, and
   * numerator / denominator equal to d; with the corrected loop bound the
   * fraction is fully reduced.
   */
  lemma FractionSound(d: Float, tries: nat)
    requires d.Finite? && !IsIntegral(d.r) && FractionOf(d, tries).ok
    ensures var f := FractionOf(d, tries);
            IsIntegral(f.numerator.r) && IsIntegral(f.denominator) &&
            Abs(f.numerator.r) < FRACTION_LIMIT && 2.0 <= f.denominator < FRACTION_LIMIT &&
            f.numerator.r / f.denominator == d.r
    ensures var f := FractionOf(d, tries);
            tries == GCD_TRIES_CORRECTED ==>
              IntGcd.Gcd(IntAbs(f.numerator.r.Floor), IntAbs(f.denominator.Floor)) == 1
  {
    FractionGoesThroughGcd(d, tries);
    FromGcdSound(d, GcdOf(Finite(1.0), d, tries), tries);
  }

  /** FractionSound for the second half of f_to_fraction, whatever the divisor. */
  lemma FromGcdSound(d: Float, divisor: real, tries: nat)
    requires d.Finite? && !IsIntegral(d.r) && FractionFromGcd(d, divisor, tries).ok
    ensures var f := FractionFromGcd(d, divisor, tries);
            IsIntegral(f.numerator.r) && IsIntegral(f.denominator) &&
            Abs(f.numerator.r) < FRACTION_LIMIT && 2.0 <= f.denominator < FRACTION_LIMIT &&
            f.numerator.r / f.denominator == d.r
    ensures var f := FractionFromGcd(d, divisor, tries);
            tries == GCD_TRIES_CORRECTED ==>
              IntGcd.Gcd(IntAbs(f.numerator.r.Floor), IntAbs(f.denominator.Floor)) == 1
  {
    assert divisor > 0.0;
    var numerator := MyRound(d.r / divisor);
    var denominator := MyRound(1.0 / divisor);
    assert Abs(numerator) < FRACTION_LIMIT && 2.0 <= denominator < FRACTION_LIMIT;
    var n0, d0 := numerator.Floor, denominator.Floor;
    assert n0 as real == numerator && d0 as real == denominator;
    assert IntAbs(n0) < 1000000000000 && 2 <= d0 < 1000000000000;
    var k1, k2 := ReduceSound(n0, d0, tries);
    if tries == GCD_TRIES_CORRECTED {
      ReduceCorrected(n0, d0);
    }
    var g := GcdOf(Finite(numerator), Finite(denominator), tries);
    var num := if g > 1.0 then numerator / g else numerator;
    var den := if g > 1.0 then denominator / g else denominator;
    assert num == k1 as real && den == k2 as real;
    var f := FractionFromGcd(d, divisor, tries);
    assert f == Fraction(true, Finite(num), den);
    assert SMALL_EPSILON * Abs(num / den) == 0.0;
    assert num / den == d.r;
    WholeFraction(d.r, k1, k2);
  }

  /** A whole-number ratio k1 / k2 that is not itself whole has k2 >= 2. */
  lemma WholeFraction(x: real, k1: int, k2: int)
    requires !IsIntegral(x) && 1 <= k2 < 1000000000000 && IntAbs(k1) < 1000000000000
    requires k1 as real / k2 as real == x
    ensures IsIntegral(k1 as real) && IsIntegral(k2 as real)
    ensures Abs(k1 as real) < FRACTION_LIMIT && 2.0 <= k2 as real < FRACTION_LIMIT
  {
    WholeIsIntegral(k1);
    WholeIsIntegral(k2);
    assert k1 as real / 1.0 == k1 as real;
  }

  // ----- f_to_fraction on simple fractions -----

  /** Comparing fractions with one positive denominator compares numerators. */
  lemma SameDenominator(a: int, b: int, q: nat)
    requires q > 0
    ensures a as real / q as real < b as real / q as real <==> a < b
    ensures a as real / q as real == b as real / q as real <==> a == b
  {
    assert a as real / q as real == a as real * (1.0 / q as real);
    assert b as real / q as real == b as real * (1.0 / q as real);
    assert 1.0 / q as real > 0.0;
  }

  lemma AbsRatio(p: int, q: nat)
    requires q > 0
    ensures Abs(p as real / q as real) == IntAbs(p) as real / q as real
  {
    SameDenominator(p, 0, q);
    SameDenominator(-p, 0, q);
  }

  /**
   * gcd(1, p/q) runs Euclid on |p| and q: it gives gcd(|p|, q)/q when
   * Euclid's steps fit in the loop and 0 otherwise.
   */
  lemma GcdOfFraction(p: int, q: nat, tries: nat)
    requires q > 0 && p != 0 && IntAbs(p) < 1000000000000000 && q < 1000000000000000
    ensures var a := IntAbs(p);
            GcdOf(Finite(1.0), Finite(p as real / q as real), tries) ==
            if 1 + IntGcd.Steps(Max(a, q), Min(a, q)) <= tries then IntGcd.Gcd(a, q) as real / q as real
            else 0.0
  {
    var a := IntAbs(p);
    var qr := q as real;
    AbsRatio(p, q);
    assert 1.0 == qr / qr;
    assert GcdOf(Finite(1.0), Finite(p as real / qr), tries) ==
           GcdOf(Finite(qr / qr), Finite(a as real / qr), tries);
    if q > a {
      GcdOfRatioBelowOne(a, q, tries);
      IntGcd.GcdSymmetric(a, q);
    } else {
      GcdOfRatioAboveOne(a, q, tries);
    }
  }

  lemma GcdOfRatioBelowOne(a: nat, q: nat, tries: nat)
    requires 1 <= a < q < 1000000000000000
    ensures GcdOf(Finite(q as real / q as real), Finite(a as real / q as real), tries) ==
            if 1 + IntGcd.Steps(q, a) <= tries then IntGcd.Gcd(q, a) as real / q as real else 0.0
  {
    var qr := q as real;
    assert qr / qr == 1.0;
    SameDenominator(a, q, q);
    SameDenominator(a, 0, q);
    assert 1.0 * EPSILON == 0.0;
    EuclidRational(q, a, q, 1, tries);
  }

  lemma GcdOfRatioAboveOne(a: nat, q: nat, tries: nat)
    requires 1 <= q <= a < 1000000000000000
    ensures GcdOf(Finite(q as real / q as real), Finite(a as real / q as real), tries) ==
            if 1 + IntGcd.Steps(a, q) <= tries then IntGcd.Gcd(a, q) as real / q as real else 0.0
  {
    var qr := q as real;
    assert qr / qr == 1.0;
    SameDenominator(q, a, q);
    SameDenominator(a, 1000000000000000, q);
    assert 1000000000000000.0 / qr <= 1000000000000000.0;
    assert (a as real / qr) * EPSILON == 0.0;
    EuclidRational(a, q, q, 1, tries);
  }

  /** p/q with q >= 2 and gcd(|p|, q) = 1 is not a whole number. */
  lemma CoprimeNotWhole(p: int, q: nat)
    requires q >= 2 && IntGcd.Gcd(IntAbs(p), q) == 1
    ensures !IsIntegral(p as real / q as real)
  {
    var x := p as real / q as real;
    if IsIntegral(x) {
      var k := x.Floor;
      QuotientTimes(p as real, q as real);
      RealProduct(q, k);
      assert p == q * k;
      assert IntAbs(p) == q * IntAbs(k);
      IntGcd.MultipleMod(q, IntAbs(k));
      IntGcd.MultipleMod(q, 1);
      IntGcd.GcdGreatest(IntAbs(p), q, q);
    }
  }

  /** Scaling p/q and 1 by 1/q gives back p and q. */
  lemma ScaleBack(p: int, q: nat)
    requires q > 0
    ensures (p as real / q as real) / (1.0 / q as real) == p as real
    ensures 1.0 / (1.0 / q as real) == q as real
  {
  }

  /**
   * With the corrected loop bound f_to_fraction recovers every reduced
   * fraction p/q whose parts have at most 11 digits.
   */
  lemma FractionRoundTrip(p: int, q: nat)
    requires 2 <= q < 1000000000000 && IntAbs(p) < 1000000000000
    requires IntGcd.Gcd(IntAbs(p), q) == 1
    ensures FractionOf(Finite(p as real / q as real), GCD_TRIES_CORRECTED) ==
            Fraction(true, Finite(p as real), q as real)
  {
    var d := Finite(p as real / q as real);
    CoprimeNotWhole(p, q);
    assert p != 0;
    FractionGoesThroughGcd(d, GCD_TRIES_CORRECTED);
    var a := IntAbs(p);
    GcdOfFraction(p, q, GCD_TRIES_CORRECTED);
    IntGcd.StepsBelowMaxK(Max(a, q), Min(a, q));
    FromGcdExact(p, q);
  }

  /** The second half of f_to_fraction when gcd(1, p/q) found 1/q. */
  lemma FromGcdExact(p: int, q: nat)
    requires 2 <= q < 1000000000000 && IntAbs(p) < 1000000000000
    requires IntGcd.Gcd(IntAbs(p), q) == 1
    ensures FractionFromGcd(Finite(p as real / q as real), 1.0 / q as real, GCD_TRIES_CORRECTED) ==
            Fraction(true, Finite(p as real), q as real)
  {
    var x, divisor := p as real / q as real, 1.0 / q as real;
    assert divisor > 0.0;
    ScaleBack(p, q);
    WholeIsIntegral(p);
    WholeIsIntegral(q);
    assert MyRound(x / divisor) == p as real && MyRound(1.0 / divisor) == q as real;
    AbsOfWhole(p);
    assert Abs(p as real) < FRACTION_LIMIT;
    GcdCorrectedExact(p, q);
    assert GcdOf(Finite(p as real), Finite(q as real), GCD_TRIES_CORRECTED) == 1.0;
    assert SMALL_EPSILON * Abs(x) == 0.0;
  }

  /**
   * f_to_fraction as written gives up on 20365011074/32951280099, a
   * reduced fraction with 11 digits above and below the bar, because gcd
   * gives up on it; with the corrected bound it is recovered.
   */
  lemma FractionFibonacciFails()
    ensures var d := Finite(20365011074.0 / 32951280099.0);
            FractionOf(d, GCD_TRIES) == Fraction(false, d, 1.0)
    ensures var d := Finite(20365011074.0 / 32951280099.0);
            FractionOf(d, GCD_TRIES_CORRECTED) == Fraction(true, Finite(20365011074.0), 32951280099.0)
  {
    var p, q := 20365011074, 32951280099;
    IntGcd.FibValues();
    IntGcd.FibSteps(51);
    IntGcd.GcdSymmetric(p, q);
    CoprimeNotWhole(p, q);
    var d := Finite(p as real / q as real);
    FractionGoesThroughGcd(d, GCD_TRIES);
    GcdOfFraction(p, q, GCD_TRIES);
    FractionRoundTrip(p, q);
  }

  /**
   * A success with denominator 1 hands back the constant unchanged: only
   * whole numbers take that path once tolerances are exact.
   */
  lemma FractionWhole(d: Float, tries: nat)
    requires FractionOf(d, tries).ok && FractionOf(d, tries).denominator == 1.0
    ensures FractionOf(d, tries).numerator == d
  {
    if !IsIntegral(d.r) {
      FractionSound(d, tries);
    }
  }

  /** The numerator of a proper fraction is a whole number, which converts to itself. */
  lemma NumeratorWhole(d: Float, tries: nat)
    requires FractionOf(d, tries).ok && FractionOf(d, tries).denominator != 1.0
    ensures var n := FractionOf(d, tries).numerator;
            FractionOf(n, tries) == Fraction(true, n, 1.0)
  {
    if !IsIntegral(d.r) {
      FractionSound(d, tries);
    }
  }
}
