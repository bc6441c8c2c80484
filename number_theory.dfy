/**
 * Integer facts that the linear congruential generator (LCG.cs) and the
 * prime sieve (Sieve32.cs) rely on: division with remainder, divisibility,
 * primes, Euclid's lemma, geometric sums 1 + a + ... + a^(n-1), and the
 * Hull–Dobell full-period theorem (Knuth, The Art of Computer Programming,
 * Vol. 2, section 3.2.1.2, Theorem A).
 */
module NumberTheory {

  // ---------------------------------------------------------------------
  // Division with remainder
  // ---------------------------------------------------------------------

  lemma MulAtLeast(x: int, d: int)
    requires x >= 1 && d > 0
    ensures x * d >= d
  {
  }

  /** The only multiple of d strictly between -d and d is 0. */
  lemma SmallMultiple(x: int, d: int)
    requires d > 0 && -d < x * d < d
    ensures x == 0
  {
  }

  /** Quotient and remainder are the only pair with n == q * d + r and 0 <= r < d. */
  lemma DivModUnique(n: int, d: int, q: int, r: int)
    requires d > 0 && 0 <= r < d && n == q * d + r
    ensures n / d == q && n % d == r
  {
    var q0, r0 := n / d, n % d;
    assert (q0 - q) * d == r - r0;
    SmallMultiple(q0 - q, d);
  }

  lemma QuotientBounds(m: int, q: int)
    requires 0 < q <= m && m % q == 0
    ensures 1 <= m / q && m == q * (m / q) && (q >= 2 ==> m / q < m)
  {
  }

  /** d divides n. */
  predicate Divides(d: int, n: int)
  {
    d > 0 && n % d == 0
  }

  lemma DividesProduct(d: int, t: int)
    requires d > 0
    ensures Divides(d, d * t) && Divides(d, t * d) && (d * t) / d == t
  {
    DivModUnique(d * t, d, t, 0);
  }

  /** The quotient of an exact division is its witness. */
  lemma DividesWitness(d: int, n: int)
    requires Divides(d, n)
    ensures n == d * (n / d)
  {
  }

  lemma DividesAdd(d: int, x: int, y: int)
    requires Divides(d, x) && Divides(d, y)
    ensures Divides(d, x + y) && Divides(d, x - y)
  {
    var i, j := x / d, y / d;
    DividesWitness(d, x);
    DividesWitness(d, y);
    assert x + y == d * (i + j);
    assert x - y == d * (i - j);
    DividesProduct(d, i + j);
    DividesProduct(d, i - j);
  }

  lemma DividesMultiple(d: int, x: int, y: int)
    requires Divides(d, x)
    ensures Divides(d, x * y) && Divides(d, y * x)
  {
    var i := x / d;
    DividesWitness(d, x);
    assert x * y == d * (i * y);
    DividesProduct(d, i * y);
  }

  lemma DividesTransitive(d: int, e: int, n: int)
    requires Divides(d, e) && Divides(e, n)
    ensures Divides(d, n)
  {
    DividesWitness(e, n);
    DividesMultiple(d, e, n / e);
  }

  /** k * x is a multiple of q * k exactly when x is a multiple of q. */
  lemma CancelFactor(q: int, k: int, x: int)
    requires q > 0 && k > 0 && Divides(q * k, k * x)
    ensures Divides(q, x)
  {
    var t := (k * x) / (q * k);
    DividesWitness(q * k, k * x);
    assert (x - q * t) * k == 0;
    SmallMultiple(x - q * t, k);
    DividesProduct(q, t);
  }

  /** A number congruent to 1 modulo q acts as 1 on divisibility by q. */
  lemma DividesThroughUnit(q: int, u: int, y: int)
    requires Divides(q, u - 1) && Divides(q, u * y)
    ensures Divides(q, y)
  {
    DividesMultiple(q, u - 1, y);
    assert u * y - (u - 1) * y == y;
    DividesAdd(q, u * y, (u - 1) * y);
  }

  /** Products of numbers that leave remainder 1 leave remainder 1. */
  lemma RemainderOneProduct(r: int, u: int, v: int)
    requires r >= 2 && u % r == 1 && v % r == 1
    ensures (u * v) % r == 1
  {
    var i, j := u / r, v / r;
    assert u == r * i + 1 && v == r * j + 1;
    assert u * v == (r * i + 1) * (r * j + 1);
    assert u * v == (r * i * j + i + j) * r + 1;
    DivModUnique(u * v, r, r * i * j + i + j, 1);
  }

  lemma RemainderOneDivides(r: int, x: int)
    requires r >= 2 && x % r == 1
    ensures Divides(r, x - 1)
  {
    DivModUnique(x - 1, r, x / r, 0);
  }

  lemma RemainderOneOf(r: int, x: int)
    requires r >= 2 && Divides(r, x - 1)
    ensures x % r == 1
  {
    DividesWitness(r, x - 1);
    DivModUnique(x, r, (x - 1) / r, 1);
  }

  // ---------------------------------------------------------------------
  // Primes
  // ---------------------------------------------------------------------

  /** p is a prime number. */
  predicate IsPrime(p: int)
  {
    p >= 2 && forall d :: 2 <= d < p ==> !Divides(d, p)
  }

  /** The least divisor of n that is at least d (n itself when none is smaller). */
  function LeastFactorFrom(n: nat, d: nat): (f: nat)
    requires 2 <= d <= n
    requires forall e :: 2 <= e < d ==> !Divides(e, n)
    ensures d <= f <= n && Divides(f, n) && IsPrime(f)
    ensures forall e :: 2 <= e < f ==> !Divides(e, n)
    decreases n - d
  {
    if n % d == 0 then
      assert IsPrime(d) by {
        forall e | 2 <= e < d
          ensures !Divides(e, d)
        {
          if Divides(e, d) {
            DividesTransitive(e, d, n);
          }
        }
      }
      d
    else
      LeastFactorFrom(n, d + 1)
  }

  /** The smallest prime factor of n. */
  function SmallestPrimeFactor(n: nat): (q: nat)
    requires n >= 2
    ensures IsPrime(q) && Divides(q, n) && q <= n
  {
    LeastFactorFrom(n, 2)
  }

  /** A number that is not prime has a prime factor whose square does not exceed it. */
  lemma CompositeFactor(n: int) returns (q: int)
    requires n >= 2 && !IsPrime(n)
    ensures IsPrime(q) && Divides(q, n) && q * q <= n
  {
    q := SmallestPrimeFactor(n);
    var t := n / q;
    DividesWitness(q, n);
    assert q != n;
    assert t >= 2;
    DividesProduct(t, q);
    assert Divides(t, n);
    MulMonotone(q, t, q);
  }

  lemma MulMonotone(c: int, x: int, y: int)
    requires 0 <= c <= x && 0 <= y
    ensures c * y <= x * y
  {
  }

  /** A prime that divides a prime is that prime. */
  lemma PrimeDividesPrime(p: int, q: int)
    requires IsPrime(p) && IsPrime(q) && Divides(p, q)
    ensures p == q
  {
  }

  /** A prime that divides x * y but not y divides x (Euclid's lemma). */
  lemma Euclid(q: int, x: int, y: int)
    requires IsPrime(q) && Divides(q, x * y) && !Divides(q, y)
    ensures Divides(q, x)
  {
    var s, t := y / q, y % q;
    assert y == q * s + t;
    assert x * y == q * (x * s) + x * t;
    DividesProduct(q, x * s);
    DividesAdd(q, x * y, q * (x * s));
    assert Divides(q, x * t);
    EuclidBelow(q, x, t);
  }

  lemma {:induction false} EuclidBelow(q: int, x: int, t: int)
    requires IsPrime(q) && 0 < t < q && Divides(q, x * t)
    ensures Divides(q, x)
    decreases t
  {
    if t > 1 {
      var s, u := q / t, q % t;
      assert !Divides(t, q);
      assert q == t * s + u && 0 < u < t;
      assert x * q == (x * t) * s + x * u;
      DividesProduct(q, x);
      DividesMultiple(q, x * t, s);
      DividesAdd(q, x * q, (x * t) * s);
      assert Divides(q, x * u);
      EuclidBelow(q, x, u);
    }
  }

  /** Any n >= 3 has a prime factor of n - 1, and no such prime divides n. */
  lemma PrimeNotDividing(n: int) returns (p: int)
    requires n >= 3
    ensures IsPrime(p) && p < n && !Divides(p, n)
  {
    p := SmallestPrimeFactor(n - 1);
    if Divides(p, n) {
      DividesAdd(p, n, n - 1);
      assert false;
    }
  }

  // ---------------------------------------------------------------------
  // Powers and geometric sums
  // ---------------------------------------------------------------------

  function Pow(b: int, e: nat): int
  {
    if e == 0 then 1 else b * Pow(b, e - 1)
  }

  /** 1 + a + a^2 + ... + a^(n-1), in the Horner form a * Geom(a, n-1) + 1. */
  function Geom(a: int, n: nat): int
  {
    if n == 0 then 0 else a * Geom(a, n - 1) + 1
  }

  lemma {:induction false} PowNonNegative(b: int, e: nat)
    requires b >= 0
    ensures Pow(b, e) >= 1 || (b == 0 && e > 0 && Pow(b, e) == 0)
    ensures Pow(b, e) >= 0
  {
    if e > 0 {
      PowNonNegative(b, e - 1);
    }
  }

  lemma {:induction false} GeomNonNegative(a: int, n: nat)
    requires a >= 0
    ensures Geom(a, n) >= 0
  {
    if n > 0 {
      GeomNonNegative(a, n - 1);
    }
  }

  lemma {:induction false} PowAdd(b: int, i: nat, j: nat)
    ensures Pow(b, i + j) == Pow(b, i) * Pow(b, j)
  {
    if i > 0 {
      PowAdd(b, i - 1, j);
      assert Pow(b, i + j) == b * Pow(b, i - 1 + j);
    }
  }

  lemma {:induction false} PowMul(b: int, k: nat, j: nat)
    ensures Pow(b, k * j) == Pow(Pow(b, k), j)
  {
    if j > 0 {
      PowMul(b, k, j - 1);
      assert k * j == k * (j - 1) + k;
      PowAdd(b, k * (j - 1), k);
    }
  }

  /** Extending a geometric sum by one term adds the next power. */
  lemma {:induction false} GeomStep(a: int, n: nat)
    ensures Geom(a, n + 1) == Geom(a, n) + Pow(a, n)
  {
    if n > 0 {
      GeomStep(a, n - 1);
      assert a * (Geom(a, n - 1) + Pow(a, n - 1)) == a * Geom(a, n - 1) + a * Pow(a, n - 1);
    }
  }


  lemma Distribute(x: int, y: int, z: int)
    ensures x * y + z * x == x * (y + z)
  {
  }

  lemma Regroup(g: int, A: int, h: int)
    ensures g + A * (g * h) == g * (A * h + 1)
  {
  }

  lemma Regroup4(k: int, u: int, q: int, v: int)
    ensures (k * u) * (q * v) == (q * k) * (u * v)
  {
  }

  lemma {:induction false} GeomAdd(a: int, n: nat, k: nat)
    ensures Geom(a, n + k) == Geom(a, k) + Pow(a, k) * Geom(a, n)
  {
    if n > 0 {
      var n1 := n - 1;
      GeomAdd(a, n1, k);
      GeomStep(a, n1 + k);
      PowAdd(a, n1, k);
      GeomStep(a, n1);
      Distribute(Pow(a, k), Geom(a, n1), Pow(a, n1));
    }
  }

  /** The sum of k * j terms splits into j blocks of k terms. */
  lemma {:induction false} GeomMul(a: int, k: nat, j: nat)
    ensures Geom(a, k * j) == Geom(a, k) * Geom(Pow(a, k), j)
  {
    if j > 0 {
      var j1 := j - 1;
      GeomMul(a, k, j1);
      assert k * j == k * j1 + k;
      GeomAdd(a, k * j1, k);
      Regroup(Geom(a, k), Pow(a, k), Geom(Pow(a, k), j1));
    }
  }

  /** (a - 1) * (1 + a + ... + a^(n-1)) == a^n - 1. */
  lemma {:induction false} GeomTimesPred(a: int, n: nat)
    ensures (a - 1) * Geom(a, n) == Pow(a, n) - 1
  {
    if n > 0 {
      GeomTimesPred(a, n - 1);
      var g, p := Geom(a, n - 1), Pow(a, n - 1);
      assert Geom(a, n) == a * g + 1 && Pow(a, n) == a * p;
      PredStep(a, g, p);
    }
  }

  /** The step of GeomTimesPred: from (a - 1) * g == p - 1 to one more term. */
  lemma PredStep(a: int, g: int, p: int)
    requires (a - 1) * g == p - 1
    ensures (a - 1) * (a * g + 1) == a * p - 1
  {
    assert (a - 1) * (a * g + 1) == a * ((a - 1) * g) + (a - 1);
    assert a * (p - 1) == a * p - a;
  }

  /** When q divides A - 1, the sum of j powers of A is j modulo q. */
  lemma PredecessorTimes(A: int, g: int)
    ensures (A - 1) * g == A * g - g
  {
  }

  lemma {:induction false} GeomModulo(A: int, j: nat, q: int)
    requires Divides(q, A - 1)
    ensures Divides(q, Geom(A, j) - j)
  {
    if j == 0 {
      DividesProduct(q, 0);
    } else {
      GeomModulo(A, j - 1, q);
      GeomModuloStep(A, j, q, Geom(A, j - 1), Geom(A, j));
    }
  }

  /** The step of GeomModulo: g - (j - 1) and A - 1 are multiples of q, so A * g + 1 - j is. */
  lemma GeomModuloStep(A: int, j: int, q: int, g: int, G: int)
    requires Divides(q, A - 1) && Divides(q, g - (j - 1)) && G == A * g + 1
    ensures Divides(q, G - j)
  {
    DividesMultiple(q, A - 1, g);
    PredecessorTimes(A, g);
    DividesAdd(q, (A - 1) * g, g - (j - 1));
  }

  /** A block of k powers: Geom(a, k * q) == Geom(a, k) * Geom(1 + B, q) with B == a^k - 1. */
  lemma BlockSplit(a: int, k: nat, q: nat) returns (B: int)
    ensures B == (a - 1) * Geom(a, k)
    ensures Geom(a, k * q) == Geom(a, k) * Geom(1 + B, q)
  {
    GeomTimesPred(a, k);
    GeomMul(a, k, q);
    B := Pow(a, k) - 1;
  }

  // ---------------------------------------------------------------------
  // Lifting a geometric sum past one prime factor
  // ---------------------------------------------------------------------

  /** 0 + 1 + ... + (n - 1). */
  function Tri(n: nat): nat
  {
    if n == 0 then 0 else Tri(n - 1) + (n - 1)
  }

  /** The coefficient of B^2 in the expansion of Geom(1 + B, n). */
  function Weight(B: int, n: nat): int
  {
    if n == 0 then 0 else Weight(B, n - 1) + Tri(n - 1) + B * Weight(B, n - 1)
  }

  lemma {:induction false} TriDouble(n: nat)
    ensures 2 * Tri(n) == n * (n - 1)
  {
    if n > 0 {
      TriDouble(n - 1);
      assert (n - 1) * (n - 2) + 2 * (n - 1) == n * (n - 1);
    }
  }

  lemma ExpansionStep(B: int, m: int, t: int, w: int)
    ensures (1 + B) * (m + B * t + B * B * w) + 1 == (m + 1) + B * (t + m) + B * B * (w + t + B * w)
  {
  }

  /** Geom(1 + B, n) == n + B * n(n-1)/2 + B^2 * w. */
  lemma {:induction false} GeomExpansion(B: int, n: nat)
    ensures Geom(1 + B, n) == n + B * Tri(n) + B * B * Weight(B, n)
  {
    if n > 0 {
      GeomExpansion(B, n - 1);
      ExpansionStep(B, n - 1, Tri(n - 1), Weight(B, n - 1));
    }
  }

  lemma FactorOut(q: int, beta: int, t: int, w: int)
    ensures q + (q * beta) * t + (q * beta) * (q * beta) * w
         == q * (1 + beta * t + (q * beta) * beta * w)
  {
  }

  /** For a prime q dividing B, q divides Geom(1 + B, q). */
  lemma GeomPrimeBlock(q: int, B: int) returns (u: int)
    requires IsPrime(q) && Divides(q, B)
    ensures Geom(1 + B, q) == q * u
    ensures u == 1 + (B / q) * Tri(q) + B * (B / q) * Weight(B, q)
  {
    var beta := B / q;
    DividesWitness(q, B);
    GeomExpansion(B, q);
    FactorOut(q, beta, Tri(q), Weight(B, q));
    u := 1 + beta * Tri(q) + B * beta * Weight(B, q);
  }

  lemma LiftPrimeTwo(B: int, r: int)
    requires IsPrime(r) && Divides(2, B) && Divides(r, B)
    requires r == 2 ==> Divides(4, B)
    ensures Divides(r, B / 2)
  {
    var beta := B / 2;
    DividesWitness(2, B);
    if r == 2 {
      DividesWitness(4, B);
      assert beta == 2 * (B / 4);
      DividesProduct(2, B / 4);
    } else {
      assert !Divides(r, 2);
      assert beta * 2 == B;
      Euclid(r, beta, 2);
    }
  }

  lemma LiftPrimeOdd(q: int, B: int, r: int)
    requires IsPrime(q) && q != 2 && Divides(q, B) && Divides(r, B)
    ensures Divides(r, (B / q) * Tri(q))
  {
    var beta := B / q;
    DividesWitness(q, B);
    TriDouble(q);
    assert !Divides(2, q);
    var h := (q - 1) / 2;
    HalfProduct(q, h, Tri(q));
    Associate(beta, q, h);
    DividesMultiple(r, B, h);
  }

  lemma HalfProduct(q: int, h: int, t: int)
    requires 2 * t == q * (q - 1) && q - 1 == 2 * h
    ensures t == q * h
  {
  }

  lemma Associate(x: int, y: int, z: int)
    ensures x * (y * z) == (y * x) * z
  {
  }

  /** r divides (B / q) * q(q-1)/2 under the conditions of LiftPrime. */
  lemma LiftPrimeMiddle(q: int, B: int, r: int)
    requires IsPrime(q) && IsPrime(r) && Divides(q, B) && Divides(r, B)
    requires q == 2 && r == 2 ==> Divides(4, B)
    ensures Divides(r, (B / q) * Tri(q))
  {
    if q == 2 {
      assert Tri(2) == 1;
      LiftPrimeTwo(B, r);
    } else {
      LiftPrimeOdd(q, B, r);
    }
  }

  /**
   * Lifting step of the Hull–Dobell proof: for primes q and r both dividing B
   * (and 4 dividing B when both are 2), Geom(1 + B, q) is q times a number
   * that leaves remainder 1 modulo r.
   */
  lemma LiftPrime(q: int, B: int, r: int) returns (u: int)
    requires IsPrime(q) && IsPrime(r) && Divides(q, B) && Divides(r, B)
    requires q == 2 && r == 2 ==> Divides(4, B)
    ensures Geom(1 + B, q) == q * u && u % r == 1
  {
    u := GeomPrimeBlock(q, B);
    var beta, w := B / q, Weight(B, q);
    LiftPrimeMiddle(q, B, r);
    DividesMultiple(r, B, beta * w);
    assert B * beta * w == B * (beta * w);
    DividesAdd(r, beta * Tri(q), B * (beta * w));
    RemainderOneOf(r, u);
  }

  // ---------------------------------------------------------------------
  // Hull–Dobell
  // ---------------------------------------------------------------------

  /**
   * The multiplier condition of the Hull–Dobell theorem: a - 1 is divisible by
   * every prime factor of m, and by 4 when m is.
   */
  ghost predicate FullPeriodMultiplier(m: int, a: int)
  {
    (forall p :: IsPrime(p) && Divides(p, m) ==> Divides(p, a - 1))
    && (Divides(4, m) ==> Divides(4, a - 1))
  }

  /** No prime factor of m divides v. */
  ghost predicate CoprimeFactors(m: int, v: int)
  {
    forall p :: IsPrime(p) && Divides(p, m) ==> !Divides(p, v)
  }

  /** A prime r modulo which the quotient Geom(a, m) / m is 1. */
  ghost predicate UnitPrime(r: int, a: int, m: int)
  {
    IsPrime(r) && Divides(r, a - 1) && (r == 2 ==> Divides(4, a - 1) || m % 2 == 1)
  }

  /** Peels the smallest prime factor q off m, leaving m == q * k with k < m. */
  lemma SplitSmallestFactor(m: int) returns (q: int, k: int)
    requires m >= 2
    ensures IsPrime(q) && Divides(q, m) && m == q * k && m == k * q && 1 <= k < m
    ensures Divides(k, m)
    ensures m % 2 == 1 ==> k % 2 == 1
    ensures q == 2 && !Divides(4, m) ==> k % 2 == 1
  {
    q := SmallestPrimeFactor(m);
    k := m / q;
    QuotientBounds(m, q);
    DividesProduct(k, q);
    if k % 2 == 0 {
      DividesTransitive(2, k, m);
      if q == 2 {
        DividesWitness(2, k);
        assert m == 4 * (k / 2);
        DividesProduct(4, k / 2);
      }
    }
  }

  lemma MultiplierOfFactor(m: int, k: int, a: int)
    requires FullPeriodMultiplier(m, a) && Divides(k, m)
    ensures FullPeriodMultiplier(k, a)
  {
    forall p | IsPrime(p) && Divides(p, k)
      ensures Divides(p, a - 1)
    {
      DividesTransitive(p, k, m);
    }
    if Divides(4, k) {
      DividesTransitive(4, k, m);
    }
  }

  /** Geom(a, q * k) == (q * k) * (uk * uq) with uq the block quotient of LiftPrime. */
  lemma BlockQuotient(a: int, q: int, k: int) returns (B: int, uq: int)
    requires IsPrime(q) && k >= 1 && Divides(q, a - 1) && Divides(k, Geom(a, k))
    ensures B == (a - 1) * Geom(a, k) && Divides(q, B)
    ensures Geom(1 + B, q) == q * uq
    ensures Geom(a, k * q) == (q * k) * ((Geom(a, k) / k) * uq)
  {
    var gk := Geom(a, k);
    DividesWitness(k, gk);
    B := BlockSplit(a, k, q);
    DividesMultiple(q, a - 1, gk);
    uq := GeomPrimeBlock(q, B);
    Regroup4(k, gk / k, q, uq);
  }

  /** The remainder part of FullPeriodSum for one prime r, given it for k. */
  lemma UnitStep(a: int, q: int, k: int, B: int, uk: int, uq: int, r: int)
    requires k >= 0 && IsPrime(q) && IsPrime(r) && Divides(q, B) && Divides(r, a - 1)
    requires B == (a - 1) * Geom(a, k) && Geom(1 + B, q) == q * uq
    requires q == 2 && r == 2 ==> Divides(4, a - 1)
    requires uk % r == 1
    ensures (uk * uq) % r == 1
  {
    DividesMultiple(r, a - 1, Geom(a, k));
    assert Divides(r, B);
    if q == 2 && r == 2 {
      DividesMultiple(4, a - 1, Geom(a, k));
    }
    var u := LiftPrime(q, B, r);
    Cancel(q, u, uq);
    RemainderOneProduct(r, uk, uq);
  }

  lemma Cancel(q: int, x: int, y: int)
    requires q > 0 && q * x == q * y
    ensures x == y
  {
    if x < y {
      MulMonotone(x + 1, y, q);
      assert false;
    } else if y < x {
      MulMonotone(y + 1, x, q);
      assert false;
    }
  }

  /**
   * Under the multiplier condition, m divides Geom(a, m), and the quotient
   * leaves remainder 1 modulo every UnitPrime r.
   */
  lemma {:induction false} FullPeriodSum(m: int, a: int)
    requires m >= 1 && FullPeriodMultiplier(m, a)
    ensures Divides(m, Geom(a, m))
    ensures forall r :: UnitPrime(r, a, m) ==> (Geom(a, m) / m) % r == 1
    decreases m
  {
    if m == 1 {
      assert Geom(a, 1) == 1;
    } else {
      var q, k := SplitSmallestFactor(m);
      MultiplierOfFactor(m, k, a);
      FullPeriodSum(k, a);
      var uk := Geom(a, k) / k;
      var B, uq := BlockQuotient(a, q, k);
      DividesProduct(m, uk * uq);
      forall r | UnitPrime(r, a, m)
        ensures (Geom(a, m) / m) % r == 1
      {
        assert UnitPrime(r, a, k);
        UnitStep(a, q, k, B, uk, uq, r);
      }
    }
  }

  lemma MultipleOfMultiple(n: int, k: int, j: int, q: int, t: int)
    requires n == k * j && j == q * t
    ensures n == (q * k) * t
  {
  }

  lemma Regroup3(k: int, u: int, s: int, v: int)
    ensures (k * u) * s * v == k * (u * (s * v))
  {
  }

  /** Geom(a, k * j) * v == k * (uk * (Geom(1 + B, j) * v)) with B == a^k - 1. */
  lemma PeriodFactor(a: int, k: int, j: nat, v: int) returns (B: int, sa: int)
    requires k >= 1 && Divides(k, Geom(a, k))
    ensures B == (a - 1) * Geom(a, k) && sa == Geom(1 + B, j)
    ensures Geom(a, k * j) * v == k * ((Geom(a, k) / k) * (sa * v))
  {
    DividesWitness(k, Geom(a, k));
    B := BlockSplit(a, k, j);
    sa := Geom(1 + B, j);
    Regroup3(k, Geom(a, k) / k, sa, v);
  }

  /** The step of ShortestPeriod: from k | n and m | Geom(a, n) * v to q | n / k. */
  lemma PeriodStep(m: int, q: int, k: int, a: int, n: nat, v: int)
    requires IsPrime(q) && m == q * k && 1 <= k && FullPeriodMultiplier(m, a)
    requires Divides(q, m) && (q == 2 && !Divides(4, m) ==> k % 2 == 1)
    requires FullPeriodMultiplier(k, a) && !Divides(q, v)
    requires Divides(k, n) && Divides(m, Geom(a, n) * v)
    ensures Divides(q, n / k)
  {
    var j := n / k;
    DividesWitness(k, n);
    FullPeriodSum(k, a);
    var B, sa := PeriodFactor(a, k, j, v);
    var uk := Geom(a, k) / k;
    CancelFactor(q, k, uk * (sa * v));
    assert UnitPrime(q, a, k);
    assert uk % q == 1;
    RemainderOneDivides(q, uk);
    DividesThroughUnit(q, uk, sa * v);
    Euclid(q, sa, v);
    DividesMultiple(q, a - 1, Geom(a, k));
    GeomModulo(1 + B, j, q);
    DividesAdd(q, sa, sa - j);
    assert sa - (sa - j) == j;
  }

  /**
   * Under the multiplier condition, m | Geom(a, n) * v with v sharing no prime
   * factor with m forces m | n: no orbit closes before m steps.
   */
  lemma {:induction false} ShortestPeriod(m: int, a: int, n: nat, v: int)
    requires m >= 1 && FullPeriodMultiplier(m, a) && CoprimeFactors(m, v)
    requires Divides(m, Geom(a, n) * v)
    ensures Divides(m, n)
    decreases m
  {
    if m == 1 {
      DividesProduct(1, n);
    } else {
      var q, k := SplitSmallestFactor(m);
      MultiplierOfFactor(m, k, a);
      DividesTransitive(k, m, Geom(a, n) * v);
      assert CoprimeFactors(k, v) by {
        forall p | IsPrime(p) && Divides(p, k)
          ensures !Divides(p, v)
        {
          DividesTransitive(p, k, m);
        }
      }
      ShortestPeriod(k, a, n, v);
      PeriodStep(m, q, k, a, n, v);
      var j := n / k;
      DividesWitness(k, n);
      DividesWitness(q, j);
      MultipleOfMultiple(n, k, j, q, j / q);
      DividesProduct(m, j / q);
    }
  }
}
