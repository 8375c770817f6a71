/*
 * Integer divisibility and the Euclidean GCD, the reference the
 * floating-point gcd of gcd.c is measured against.
 */
module IntGcd {
  import opened Tokens

  /** `d` divides `n`. */
  predicate Divides(d: int, n: int) {
    d > 0 && n % d == 0
  }

  /** Euclid's algorithm on naturals; gcd(0, 0) is 0. */
  function Gcd(a: nat, b: nat): nat
    decreases b
  {
    if b == 0 then a else Gcd(b, a % b)
  }

  lemma MulNonneg(x: int, y: int)
    requires x >= 0 && y >= 0
    ensures x * y >= 0
  {
  }

  /** A multiple of `d` leaves no remainder. */
  lemma MultipleMod(d: int, m: int)
    requires d > 0
    ensures (d * m) % d == 0
  {
    var r := (d * m) % d;
    var q := (d * m) / d;
    var k := m - q;
    assert d * m == d * q + r;
    assert r == d * k by {
      assert d * m - d * q == d * (m - q);
    }
    if k >= 1 {
      MulNonneg(d, k - 1);
    } else if k <= -1 {
      MulNonneg(d, -k - 1);
    }
  }

  /** Divisibility is closed under integer linear combinations. */
  lemma DividesCombination(d: int, x: int, y: int, q: int)
    requires Divides(d, x) && Divides(d, y)
    ensures Divides(d, q * x + y)
  {
    var kx, ky := x / d, y / d;
    assert x == d * kx;
    assert y == d * ky;
    assert q * x + y == d * (q * kx + ky);
    MultipleMod(d, q * kx + ky);
  }

  /** The result of Euclid divides both operands. */
  lemma {:induction false} GcdDivides(a: nat, b: nat)
    requires a > 0 || b > 0
    ensures Gcd(a, b) > 0
    ensures Divides(Gcd(a, b), a) && Divides(Gcd(a, b), b)
    decreases b
  {
    if b > 0 {
      GcdDivides(b, a % b);
      var g := Gcd(a, b);
      assert a == (a / b) * b + a % b;
      DividesCombination(g, b, a % b, a / b);
    }
  }

  /** Every common divisor divides the result of Euclid. */
  lemma {:induction false} GcdGreatest(a: nat, b: nat, d: int)
    requires Divides(d, a) && Divides(d, b)
    ensures Gcd(a, b) % d == 0
    decreases b
  {
    if b > 0 {
      assert a % b == -(a / b) * b + a;
      DividesCombination(d, b, a, -(a / b));
      GcdGreatest(b, a % b, d);
    }
  }

  lemma GcdSymmetric(a: nat, b: nat)
    ensures Gcd(a, b) == Gcd(b, a)
  {
    if a > 0 || b > 0 {
      GcdDivides(a, b);
      GcdDivides(b, a);
      GcdGreatest(a, b, Gcd(b, a));
      GcdGreatest(b, a, Gcd(a, b));
      DividesAntisymmetric(Gcd(a, b), Gcd(b, a));
    }
  }

  lemma DividesAntisymmetric(x: int, y: int)
    requires x > 0 && y > 0 && x % y == 0 && y % x == 0
    ensures x == y
  {
    DividesBound(y, x);
    DividesBound(x, y);
  }

  /** A positive multiple of `d` is at least `d`. */
  lemma DividesBound(d: int, n: int)
    requires d > 0 && n > 0 && n % d == 0
    ensures d <= n
  {
    var q := n / d;
    assert n == d * q;
    if q <= 0 {
      MulNonneg(d, -q);
    }
  }

  /** If `h` divides `q` then `h * g` divides `g * q`. */
  lemma DividesScaled(q: int, g: int, h: int)
    requires g > 0 && Divides(h, q)
    ensures Divides(h * g, g * q)
  {
    var k := q / h;
    assert q == h * k;
    assert g * q == (h * g) * k by {
      assert g * (h * k) == (h * g) * k;
    }
    MulNonneg(h - 1, g);
    MultipleMod(h * g, k);
  }

  /** If `h * g` divides `g`, the factor `h` is 1. */
  lemma UnitFactor(h: int, g: int)
    requires g > 0 && h >= 1 && Divides(h * g, g)
    ensures h == 1
  {
    DividesBound(h * g, g);
    if h > 1 {
      MulNonneg(h - 2, g);
    }
  }

  /**
   * Dividing both operands by their gcd leaves coprime numbers: any
   * common divisor `h` of the quotients `a'`, `b'` makes `h * g` a common
   * divisor of the operands, which must divide `g`.
   */
  lemma CoprimeFactors(a: nat, b: nat, g: nat, a': nat, b': nat)
    requires g == Gcd(a, b) && g > 0
    requires a == g * a' && b == g * b'
    requires a' > 0 || b' > 0
    ensures Gcd(a', b') == 1
  {
    GcdDivides(a', b');
    var h := Gcd(a', b');
    DividesScaled(a', g, h);
    DividesScaled(b', g, h);
    GcdGreatest(a, b, h * g);
    UnitFactor(h, g);
  }

  // ----- how many remainder steps Euclid takes -----

  /** Iterations Euclid's loop runs on (m, n) until a remainder is zero. */
  function Steps(m: nat, n: nat): (k: nat)
    requires n > 0
    ensures k >= 1
    decreases n
  {
    if m % n == 0 then 1 else 1 + Steps(n, m % n)
  }

  /** One step at least halves the larger number. */
  lemma RemainderHalves(m: nat, n: nat)
    requires 1 <= n <= m
    ensures 2 * (m % n) < m
  {
    if 2 * n > m {
      var q := m / n;
      assert m == n * q + m % n;
      if q >= 2 {
        MulNonneg(n, q - 2);
      } else if q <= 0 {
        MulNonneg(n, -q);
      }
      assert m % n == m - n;
    }
  }

  /**
   * Lame's bound in its simplest form: every two steps halve the larger
   * number, so numbers below 2^j need at most 2j - 1 steps.
   */
  lemma {:induction false} StepsBound(m: nat, n: nat, j: nat)
    requires 1 <= n <= m < Pow2(j)
    ensures Steps(m, n) <= 2 * j - 1
    decreases j
  {
    assert j >= 1;
    if m % n != 0 {
      var r1 := m % n;
      RemainderHalves(m, n);
      if n % r1 != 0 {
        StepsBound(r1, n % r1, j - 1);
      }
    }
  }

  lemma Pow2Fifty()
    ensures Pow2(50) == 1125899906842624
  {
    assert Pow2(10) == 1024;
    assert Pow2(20) == 1048576;
    assert Pow2(30) == 1073741824;
    assert Pow2(40) == 1099511627776;
  }

  /** Below 10^15 Euclid never needs more than 99 steps. */
  lemma StepsBelowMaxK(m: nat, n: nat)
    requires 1 <= n <= m < 1000000000000000
    ensures Steps(m, n) <= 99
  {
    Pow2Fifty();
    StepsBound(m, n, 50);
  }

  // ----- consecutive Fibonacci numbers are Euclid's worst case -----

  function Fib(n: nat): (r: nat)
    ensures n >= 1 ==> r >= 1
  {
    if n < 2 then n else Fib(n - 1) + Fib(n - 2)
  }

  lemma {:induction false} FibGrows(n: nat)
    ensures n >= 3 ==> Fib(n - 1) < Fib(n)
  {
    if n >= 3 {
      FibGrows(n - 1);
    }
  }

  lemma ModOfSum(a: nat, b: nat)
    requires 0 <= b < a
    ensures (a + b) % a == b
  {
    var q := (a + b) / a;
    assert a + b == a * q + (a + b) % a;
    if q >= 2 {
      MulNonneg(a, q - 2);
    } else if q <= 0 {
      MulNonneg(a, -q);
    }
  }

  /** Every quotient is 1, so (F(n+1), F(n)) takes n - 1 steps and are coprime. */
  lemma {:induction false} FibSteps(n: nat)
    requires n >= 2
    ensures Steps(Fib(n + 1), Fib(n)) == n - 1
    ensures Gcd(Fib(n + 1), Fib(n)) == 1
    decreases n
  {
    if n > 2 {
      FibGrows(n);
      ModOfSum(Fib(n), Fib(n - 1));
      FibSteps(n - 1);
    }
  }

  lemma FibValues()
    ensures Fib(51) == 20365011074 && Fib(52) == 32951280099
  {
    assert Fib(6) == 8 && Fib(7) == 13;
    assert Fib(12) == 144 && Fib(13) == 233;
    assert Fib(18) == 2584 && Fib(19) == 4181;
    assert Fib(24) == 46368 && Fib(25) == 75025;
    assert Fib(30) == 832040 && Fib(31) == 1346269;
    assert Fib(36) == 14930352 && Fib(37) == 24157817;
    assert Fib(42) == 267914296 && Fib(43) == 433494437;
    assert Fib(48) == 4807526976 && Fib(49) == 7778742049;
  }
}
