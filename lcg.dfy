/**
 * LCG: a linear congruential generator x' = (a * x + c) mod m whose
 * multiplier and increment are chosen from the prime factorisation of m so
 * that the Hull-Dobell conditions hold (Knuth, The Art of Computer
 * Programming, Vol. 2, section 3.2.1.2, Theorem A). The constructor
 * materialises the whole orbit X[0..m) from x0.
 */
module Lcg {
  import opened Machine
  import opened NumberTheory
  import opened RandomSource
  import opened Extensions
  import Sieve

  /** The exceptions an LCG can raise. */
  datatype LcgError =
    | ModulusZero                          // DivideByZeroException from x0 % m
    | PrimesFailed(error: Sieve.SieveError)  // Sieve32.Primes(m) threw
    | ListTooLong                          // OutOfMemoryException: X would exceed Array.MaxLength
    | IndexOutOfRange                      // ArgumentOutOfRangeException from X[i]

  // ---------------------------------------------------------------------
  // The recurrence, as computed in 32-bit unsigned arithmetic
  // ---------------------------------------------------------------------

  /** One step of the recurrence: the product and sum wrap at 2^32 before the remainder. */
  function Step(m: u32, a: u32, c: u32, x: u32): (r: u32)
    requires m > 0
    ensures r < m
  {
    UInt32(a * x + c) % m
  }

  /** The k-th value of the orbit from x. */
  function Iter(m: u32, a: u32, c: u32, x: u32, k: nat): (r: u32)
    requires m > 0
    ensures x < m ==> r < m
  {
    if k == 0 then x else Step(m, a, c, Iter(m, a, c, x, k - 1))
  }

  /** The first n values of the orbit from x0. */
  function Orbit(m: u32, a: u32, c: u32, x0: u32, n: nat): (s: seq<u32>)
    requires m > 0
    ensures |s| == n && forall i :: 0 <= i < n ==> s[i] == Iter(m, a, c, x0, i)
  {
    seq(n, i requires 0 <= i < n => Iter(m, a, c, x0, i))
  }

  // ---------------------------------------------------------------------
  // Choosing a and c
  // ---------------------------------------------------------------------

  /** primes.Where(p => m % p == 0): the elements that divide m, in order. */
  function Dividing(primes: seq<int>, m: int): seq<int>
  {
    if |primes| == 0 then []
    else Dividing(primes[..|primes| - 1], m)
         + (if Divides(primes[|primes| - 1], m) then [primes[|primes| - 1]] else [])
  }

  /** primes.Where(p => m % p != 0): the elements that do not divide m, in order. */
  function NotDividing(primes: seq<int>, m: int): seq<int>
  {
    if |primes| == 0 then []
    else NotDividing(primes[..|primes| - 1], m)
         + (if Divides(primes[|primes| - 1], m) then [] else [primes[|primes| - 1]])
  }

  /** LCG.Primes(): the primes up to m with 1 appended. */
  ghost function PrimesAndOne(m: int): seq<int>
  {
    Sieve.PrimesBelow(m + 1) + [1]
  }

  /** The product of a sequence of integers. */
  function Product(s: seq<int>): int
  {
    if |s| == 0 then 1 else Product(s[..|s| - 1]) * s[|s| - 1]
  }

  /** factors.Aggregate((x, y) => x * y): a left fold in unchecked uint arithmetic. */
  function Aggregate(fs: seq<int>): u32
    requires |fs| >= 1
  {
    if |fs| == 1 then UInt32(fs[0]) else UInt32(Aggregate(fs[..|fs| - 1]) * fs[|fs| - 1])
  }

  /** The multiplier Initialize derives from the product of the factors. */
  function Multiplier(m: u32, product: u32): u32
  {
    if m % 4 == 0 then
      if product % 4 == 0 then UInt32(product + 1) else UInt32(product * 4 + 1)
    else UInt32(product + 1)
  }

  /** The factors CalcC collects for modulus m. */
  ghost function Factors(m: int): seq<int>
  {
    Dividing(PrimesAndOne(m), m)
  }

  /** The increments CalcC chooses among for modulus m. */
  ghost function Candidates(m: int): seq<int>
  {
    NotDividing(PrimesAndOne(m), m)
  }

  // ---------------------------------------------------------------------
  // The generator
  // ---------------------------------------------------------------------

  class Lcg {
    const m: u32
    /** x0, reduced modulo m. */
    const x0: u32
    /** The sample sequence of new Random(seed). */
    const samples: nat -> nat
    var a: u32
    var c: u32
    var index: i32
    var X: seq<u32>

    /** The orbit has been materialised. */
    ghost predicate Valid()
      reads this
    {
      9 <= m <= MAX_LIST_LENGTH && x0 < m && X == Orbit(m, a, c, x0, m)
    }

    /**
     * new LCG(m, x0, seed) for an m the sieve accepts and a list can hold;
     * Create covers the other moduli.
     */
    constructor (m: u32, x0: u32, samples: nat -> nat, processors: int)
      requires 9 <= m <= MAX_LIST_LENGTH && 1 <= processors <= 0x0FFF_FFFF
      ensures this.m == m && this.x0 == x0 % m && this.samples == samples
      ensures a == Multiplier(m, Aggregate(Factors(m)))
      ensures c == Pick(Candidates(m), samples, 0, 1)
      ensures index == 0 && Valid()
    {
      this.m := m;
      this.x0 := x0 % m;
      this.samples := samples;
      new;
      Initialize(processors);
    }

    /** Initialize(): choose c and a, then materialise X. */
    method Initialize(processors: int)
      requires 9 <= m <= MAX_LIST_LENGTH && x0 < m && 1 <= processors <= 0x0FFF_FFFF
      modifies this
      ensures a == Multiplier(m, Aggregate(Factors(m)))
      ensures c == Pick(Candidates(m), samples, 0, 1)
      ensures index == 0 && Valid()
    {
      X := [];
      var sieved := Sieve.Primes(m, processors);
      var primes := sieved.value + [1];
      assert primes == PrimesAndOne(m);
      PrimesAndOnePositive(m);
      var chosen, factors := CalcC(primes);
      CandidatesNonEmpty(m);
      assert chosen == Some(Pick(Candidates(m), samples, 0, 1));
      IncrementCoprime(m, samples);
      c := chosen.value;
      a := Aggregate(factors);
      ChooseMultiplier();
      index := 0;
      FillOrbit();
    }

    /** The branches of Initialize that turn the product of the factors into a. */
    method ChooseMultiplier()
      modifies this
      ensures a == Multiplier(m, old(a))
      ensures c == old(c) && X == old(X) && index == old(index)
    {
      if m % 4 == 0 {
        if a % 4 == 0 {
          a := UInt32(a + 1);
        } else {
          a := UInt32(a * 4 + 1);
        }
      } else {
        a := UInt32(a + 1);
      }
    }

    /** The loop of Initialize: X[0] = x0 and X[i] = (a * X[i - 1] + c) % m. */
    method FillOrbit()
      requires 9 <= m <= MAX_LIST_LENGTH && x0 < m
      modifies this
      ensures Valid() && a == old(a) && c == old(c) && index == old(index)
    {
      X := [x0];
      var i: u32 := 1;
      while i < m
        invariant 1 <= i <= m
        invariant X == Orbit(m, a, c, x0, i)
        invariant a == old(a) && c == old(c) && index == old(index)
      {
        OrbitSnoc(m, a, c, x0, i);
        X := X + [UInt32(a * X[i - 1] + c) % m];
        i := i + 1;
      }
    }

    /**
     * CalcC(primes, out factors): the elements of primes that divide m are
     * the factors; c is a reservoir pick, with default 1, among the others,
     * made by a generator new Random(seed). None stands for the exception
     * RandomOrDefault throws when no element is left.
     */
    method CalcC(primes: seq<int>) returns (chosen: Option<int>, factors: seq<int>)
      requires forall i :: 0 <= i < |primes| ==> primes[i] >= 1
      ensures factors == Dividing(primes, m)
      ensures chosen == if |NotDividing(primes, m)| == 0 then None
                        else Some(Pick(NotDividing(primes, m), samples, 0, 1))
    {
      var random := new Random(samples);
      var fs: seq<int> := [];
      var candidates: seq<int> := [];
      for i := 0 to |primes|
        invariant fs == Dividing(primes[..i], m)
        invariant candidates == NotDividing(primes[..i], m)
        invariant random.drawn == 0
      {
        var p := primes[i];
        assert primes[..i + 1] == primes[..i] + [p];
        DividingSnoc(primes[..i], p, m);
        if m % p == 0 {
          fs := fs + [p];
        } else {
          candidates := candidates + [p];
        }
      }
      assert primes[..|primes|] == primes;
      chosen := RandomOrDefault(candidates, random, 1);
      factors := fs;
    }

    /** SetIndex(i). */
    method SetIndex(i: i32)
      requires Valid()
      modifies this
      ensures index == i
      ensures Valid() && a == old(a) && c == old(c) && X == old(X)
    {
      index := i;
    }

    /** Get(i) == X[i]; an index outside X throws. */
    method Get(i: i32) returns (r: Result<u32, LcgError>)
      requires Valid()
      ensures 0 <= i < m ==> r == Success(Iter(m, a, c, x0, i))
      ensures !(0 <= i < m) ==> r == Failure(IndexOutOfRange)
    {
      if !(0 <= i < |X|) {
        return Failure(IndexOutOfRange);
      }
      return Success(X[i]);
    }

    /**
     * Next(): X[index], then index + 1. The reset to 0 needs index > m,
     * which the read X[index] has already rejected, so the call after the
     * m-th throws instead of wrapping around.
     */
    method Next() returns (r: Result<u32, LcgError>)
      requires Valid()
      modifies this
      ensures Valid() && a == old(a) && c == old(c) && X == old(X)
      ensures 0 <= old(index) < m ==> r == Success(X[old(index)]) && index == old(index) + 1
      ensures !(0 <= old(index) < m) ==> r == Failure(IndexOutOfRange) && index == old(index)
    {
      if !(0 <= index < |X|) {
        return Failure(IndexOutOfRange);
      }
      var value := X[index];
      index := index + 1;
      if index > |X| {
        // the reset is unreachable: index <= |X| after the read
        assert false;
      }
      return Success(value);
    }

    /** GetList(): the m orbit values in order. */
    method GetList() returns (list: seq<int>)
      requires Valid()
      ensures |list| == m && forall i :: 0 <= i < m ==> list[i] == Iter(m, a, c, x0, i)
    {
      list := [];
      var i: u32 := 0;
      while i < m
        invariant 0 <= i <= m
        invariant list == X[..i]
      {
        list := list + [X[i]];
        i := i + 1;
      }
    }
  }

  /**
   * The LCG(uint m, uint x0, int seed) constructor for every modulus:
   * m == 0 fails on x0 % m, the sieve rejects m below 9, and X cannot hold
   * more than Array.MaxLength values.
   */
  method Create(m: u32, x0: u32, samples: nat -> nat, processors: int) returns (r: Result<Lcg, LcgError>)
    requires 1 <= processors <= 0x0FFF_FFFF
    ensures m == 0 ==> r == Failure(ModulusZero)
    ensures m == 1 ==> r == Failure(PrimesFailed(Sieve.BadUpperLimit))
    ensures m == 2 ==> r == Failure(PrimesFailed(Sieve.DivideByZero))
    ensures 3 <= m <= 8 ==> r == Failure(PrimesFailed(Sieve.NegativeBitLength))
    ensures m > MAX_LIST_LENGTH ==> r == Failure(ListTooLong)
    ensures 9 <= m <= MAX_LIST_LENGTH ==>
      && r.Success? && fresh(r.value) && r.value.Valid()
      && r.value.m == m && r.value.x0 == x0 % m && r.value.samples == samples && r.value.index == 0
      && r.value.a == Multiplier(m, Aggregate(Factors(m)))
      && r.value.c == Pick(Candidates(m), samples, 0, 1)
  {
    if m == 0 {
      return Failure(ModulusZero);
    }
    var sieved := Sieve.Primes(m, processors);
    if sieved.Failure? {
      return Failure(PrimesFailed(sieved.error));
    }
    if m > MAX_LIST_LENGTH {
      return Failure(ListTooLong);
    }
    var lcg := new Lcg(m, x0, samples, processors);
    return Success(lcg);
  }

  /** LCG(int m, int x0, int seed): both arguments are cast to uint. */
  method CreateSigned(m: i32, x0: i32, samples: nat -> nat, processors: int) returns (r: Result<Lcg, LcgError>)
    requires 1 <= processors <= 0x0FFF_FFFF
    ensures m < 0 || m > MAX_LIST_LENGTH ==> r == Failure(ListTooLong)
    ensures 0 <= m < 9 ==> r.Failure?
    ensures 9 <= m <= MAX_LIST_LENGTH ==> r.Success?
    ensures r.Success? ==>
      && fresh(r.value) && r.value.Valid()
      && r.value.m == UInt32(m) && r.value.x0 == UInt32(x0) % UInt32(m) && r.value.samples == samples
  {
    r := Create(UInt32(m), UInt32(x0), samples, processors);
  }

  // ---------------------------------------------------------------------
  // What CalcC and Initialize choose
  // ---------------------------------------------------------------------

  lemma DividingSnoc(s: seq<int>, x: int, m: int)
    ensures Dividing(s + [x], m) == Dividing(s, m) + (if Divides(x, m) then [x] else [])
    ensures NotDividing(s + [x], m) == NotDividing(s, m) + (if Divides(x, m) then [] else [x])
  {
    assert (s + [x])[..|s|] == s;
  }

  /** The two filters split primes by whether the element divides m. */
  lemma {:induction false} FilterMembers(primes: seq<int>, m: int)
    ensures forall x :: x in Dividing(primes, m) <==> x in primes && Divides(x, m)
    ensures forall x :: x in NotDividing(primes, m) <==> x in primes && !Divides(x, m)
    decreases |primes|
  {
    if |primes| > 0 {
      var prefix, x := primes[..|primes| - 1], primes[|primes| - 1];
      FilterMembers(prefix, m);
      assert primes == prefix + [x];
    }
  }

  /** A positive divisor of a positive number is at most that number. */
  lemma DivisorAtMost(d: int, m: int)
    requires Divides(d, m) && m >= 1
    ensures d <= m
  {
    DividesWitness(d, m);
    if m / d <= 0 {
      MulMonotone(0, d, -(m / d));
      assert false;
    }
    MulAtLeast(m / d, d);
  }

  lemma ProductSnoc(s: seq<int>, x: int)
    ensures Product(s + [x]) == Product(s) * x
  {
    assert (s + [x])[..|s|] == s;
  }

  /** Orbit(i + 1) extends Orbit(i) by one step from its last value. */
  lemma OrbitSnoc(m: u32, a: u32, c: u32, x0: u32, i: nat)
    requires m > 0 && i >= 1
    ensures Orbit(m, a, c, x0, i + 1) == Orbit(m, a, c, x0, i) + [Step(m, a, c, Orbit(m, a, c, x0, i)[i - 1])]
  {
  }

  /** Every element of LCG.Primes() is positive. */
  lemma PrimesAndOnePositive(m: int)
    ensures forall i :: 0 <= i < |PrimesAndOne(m)| ==> PrimesAndOne(m)[i] >= 1
  {
    Sieve.PrimesBelowMembers(m + 1);
    var s := Sieve.PrimesBelow(m + 1);
    forall i | 0 <= i < |PrimesAndOne(m)|
      ensures PrimesAndOne(m)[i] >= 1
    {
      if i < |s| {
        assert s[i] in s;
      }
    }
  }

  /** For m >= 3 some prime up to m does not divide m, so CalcC has a candidate. */
  lemma CandidatesNonEmpty(m: int)
    requires m >= 3
    ensures |Candidates(m)| >= 1
    ensures forall x :: x in Candidates(m) <==> IsPrime(x) && x < m && !Divides(x, m)
  {
    Sieve.PrimesBelowMembers(m + 1);
    FilterMembers(PrimesAndOne(m), m);
    var p := PrimeNotDividing(m);
    assert p in Candidates(m);
    forall x | IsPrime(x) && x <= m && !Divides(x, m)
      ensures x < m
    {
      if x == m {
        DividesProduct(m, 1);
      }
    }
  }

  /**
   * The increment is a prime below m that does not divide m, so it shares
   * no prime factor with m: the first Hull-Dobell condition.
   */
  lemma IncrementCoprime(m: int, samples: nat -> nat)
    requires m >= 3
    ensures var c := Pick(Candidates(m), samples, 0, 1);
      IsPrime(c) && c < m && !Divides(c, m) && CoprimeFactors(m, c)
  {
    CandidatesNonEmpty(m);
    var c := Pick(Candidates(m), samples, 0, 1);
    PickInSource(Candidates(m), samples, 0, 1);
    forall p | IsPrime(p) && Divides(p, m)
      ensures !Divides(p, c)
    {
      if Divides(p, c) {
        PrimeDividesPrime(p, c);
      }
    }
  }

  /** A prime dividing neither factor does not divide the product. */
  lemma NotDividingEither(q: int, x: int, y: int)
    requires IsPrime(q) && !Divides(q, x) && !Divides(q, y)
    ensures !Divides(q, x * y)
  {
    if Divides(q, x * y) {
      Euclid(q, x, y);
    }
  }

  /** A prime does not divide a smaller positive number. */
  lemma NotDividingSmaller(q: int, x: int)
    requires 0 < x < q
    ensures !Divides(q, x)
  {
    assert x % q == x;
  }

  /** A prime does not divide a product of smaller primes. */
  lemma {:induction false} PrimeNotDividingProduct(q: int, s: seq<int>)
    requires IsPrime(q)
    requires forall x :: x in s ==> IsPrime(x) && x < q
    ensures !Divides(q, Product(s))
    decreases |s|
  {
    if |s| == 0 {
      NotDividingSmaller(q, 1);
    } else {
      var prefix, x := s[..|s| - 1], s[|s| - 1];
      assert x in s;
      assert forall y :: y in prefix ==> y in s;
      PrimeNotDividingProduct(q, prefix);
      NotDividingSmaller(q, x);
      NotDividingEither(q, Product(prefix), x);
    }
  }

  /** d | m and a prime p | m with p not dividing d give d * p | m. */
  lemma ProductOfCoprime(d: int, p: int, m: int)
    requires Divides(d, m) && IsPrime(p) && Divides(p, m) && !Divides(p, d)
    ensures Divides(d * p, m)
  {
    var t := m / d;
    DividesWitness(d, m);
    assert Divides(p, t * d);
    Euclid(p, t, d);
    var u := t / p;
    DividesWitness(p, t);
    assert m == (d * p) * u;
    DividesProduct(d * p, u);
  }

  /**
   * fs holds primes below n, its product divides m, and every prime below
   * n that divides m divides the product.
   */
  ghost predicate RadicalOf(fs: seq<int>, m: int, n: int)
  {
    && (forall x :: x in fs ==> IsPrime(x) && x < n)
    && Divides(Product(fs), m)
    && (forall p :: IsPrime(p) && p < n && Divides(p, m) ==> Divides(p, Product(fs)))
  }

  /** A new prime factor q of m extends the radical of the primes below q. */
  lemma RadicalExtend(fs: seq<int>, m: int, q: int)
    requires RadicalOf(fs, m, q) && IsPrime(q) && Divides(q, m)
    ensures RadicalOf(fs + [q], m, q + 1)
  {
    ProductSnoc(fs, q);
    PrimeNotDividingProduct(q, fs);
    ProductOfCoprime(Product(fs), q, m);
    forall p | IsPrime(p) && p < q + 1 && Divides(p, m)
      ensures Divides(p, Product(fs) * q)
    {
      if p < q {
        DividesMultiple(p, Product(fs), q);
      } else {
        DividesProduct(q, Product(fs));
      }
    }
  }

  /** A number that is not a prime factor of m leaves the radical unchanged. */
  lemma RadicalSkip(fs: seq<int>, m: int, q: int)
    requires RadicalOf(fs, m, q) && !(IsPrime(q) && Divides(q, m))
    ensures RadicalOf(fs, m, q + 1)
  {
  }

  /** The primes below n that divide m form the radical of m below n. */
  lemma {:induction false} RadicalBelow(m: int, n: int)
    requires m >= 1
    ensures RadicalOf(Dividing(Sieve.PrimesBelow(n), m), m, n)
    decreases n
  {
    var fs := Dividing(Sieve.PrimesBelow(n), m);
    if n <= 2 {
      assert fs == [];
      DividesProduct(1, m);
    } else {
      RadicalBelow(m, n - 1);
      var s := Sieve.PrimesBelow(n - 1);
      var q := n - 1;
      if IsPrime(q) {
        assert Sieve.PrimesBelow(n) == s + [q];
        DividingSnoc(s, q, m);
        if Divides(q, m) {
          assert fs == Dividing(s, m) + [q];
          RadicalExtend(Dividing(s, m), m, q);
        } else {
          assert fs == Dividing(s, m);
          RadicalSkip(Dividing(s, m), m, q);
        }
      } else {
        assert Sieve.PrimesBelow(n) == s;
        RadicalSkip(Dividing(s, m), m, q);
      }
    }
  }

  lemma {:induction false} ProductPositive(s: seq<int>)
    requires forall x :: x in s ==> x >= 1
    ensures Product(s) >= 1
    decreases |s|
  {
    if |s| > 0 {
      var prefix := s[..|s| - 1];
      assert s[|s| - 1] in s;
      assert forall y :: y in prefix ==> y in s;
      ProductPositive(prefix);
      MulAtLeast(s[|s| - 1], Product(prefix));
    }
  }

  /** When the exact product fits in a uint, the unchecked fold computes it. */
  lemma {:induction false} AggregateExact(fs: seq<int>)
    requires |fs| >= 1 && forall x :: x in fs ==> 1 <= x
    requires Product(fs) < TWO_32
    ensures Aggregate(fs) == Product(fs)
    decreases |fs|
  {
    var prefix, x := fs[..|fs| - 1], fs[|fs| - 1];
    assert x in fs;
    assert forall y :: y in prefix ==> y in fs;
    ProductPositive(prefix);
    if |fs| == 1 {
      assert Product(fs) == Product([]) * x;
    } else {
      MulMonotone(1, x, Product(prefix));
      AggregateExact(prefix);
    }
  }

  /**
   * The product of the factors is the radical of m: it divides m and every
   * prime factor of m divides it, so the fold does not wrap.
   */
  lemma FactorsRadical(m: int)
    requires 1 <= m < TWO_32
    ensures Aggregate(Factors(m)) == Product(Factors(m))
    ensures Divides(Product(Factors(m)), m)
    ensures forall p :: IsPrime(p) && Divides(p, m) ==> Divides(p, Product(Factors(m)))
  {
    var fs := Dividing(Sieve.PrimesBelow(m + 1), m);
    RadicalBelow(m, m + 1);
    FactorsAreRadical(m);
    forall p | IsPrime(p) && Divides(p, m)
      ensures Divides(p, Product(fs))
    {
      DivisorAtMost(p, m);
    }
    DivisorAtMost(Product(fs), m);
    AggregateExact(Factors(m));
  }

  /** The factors are the radical's primes with 1 appended. */
  lemma FactorsAreRadical(m: int)
    requires m >= 1
    ensures Factors(m) == Dividing(Sieve.PrimesBelow(m + 1), m) + [1]
    ensures Product(Factors(m)) == Product(Dividing(Sieve.PrimesBelow(m + 1), m))
    ensures forall x :: x in Factors(m) ==> 1 <= x
  {
    var s := Sieve.PrimesBelow(m + 1);
    Sieve.PrimesBelowMembers(m + 1);
    DividingSnoc(s, 1, m);
    DividesProduct(1, m);
    ProductSnoc(Dividing(s, m), 1);
    FilterMembers(PrimesAndOne(m), m);
  }

  /**
   * From any r that m's prime factors all divide, with r | m, Multiplier
   * makes a - 1 divisible by every prime factor of m and by 4 when 4 | m:
   * the second and third Hull-Dobell conditions. For 4 | m the multiplier
   * is 4r + 1 <= 2m + 1, which does not wrap when m <= int.MaxValue.
   */
  lemma MultiplierFullPeriod(m: int, r: int)
    requires 1 <= m <= INT_MAX && Divides(r, m)
    requires forall p :: IsPrime(p) && Divides(p, m) ==> Divides(p, r)
    ensures FullPeriodMultiplier(m, Multiplier(m, r))
  {
    DividesWitness(r, m);
    MulAtLeast(m / r, r);
    var a := Multiplier(m, r);
    if m % 4 == 0 && r % 4 != 0 {
      var k := m / r;
      if k == 1 {
        assert false;
      }
      MulMonotone(2, k, r);
      assert a - 1 == 4 * r;
      forall p | IsPrime(p) && Divides(p, m)
        ensures Divides(p, a - 1)
      {
        DividesMultiple(p, r, 4);
      }
      DividesProduct(4, r);
    }
  }

  /** The multiplier Initialize computes satisfies the Hull-Dobell conditions. */
  lemma ConstructedMultiplier(m: int)
    requires 1 <= m <= INT_MAX
    ensures FullPeriodMultiplier(m, Multiplier(m, Aggregate(Factors(m))))
  {
    FactorsRadical(m);
    MultiplierFullPeriod(m, Product(Factors(m)));
  }

  // ---------------------------------------------------------------------
  // The orbit is a permutation of [0, m) when the step does not wrap
  // ---------------------------------------------------------------------

  /** No step of an orbit inside [0, m) wraps when a * (m - 1) + c < 2^32. */
  lemma StepExact(m: u32, a: u32, c: u32, x: u32)
    requires 0 <= x < m && a * (m - 1) + c < TWO_32
    ensures Step(m, a, c, x) == (a * x + c) % m
  {
    MulMonotone(x, m - 1, a);
  }

  lemma AffineStep(a: int, P: int, G: int, y: int, c: int)
    ensures a * (P * y + c * G) + c == (a * P) * y + c * (a * G + 1)
  {
  }

  /** From z == E (mod m), the remainder of a * z + c is a * E + c (mod m). */
  lemma CongruentStep(m: int, a: int, c: int, z: int, E: int)
    requires m > 0 && Divides(m, z - E)
    ensures Divides(m, (a * z + c) % m - (a * E + c))
  {
    var t := a * z + c;
    RemainderCongruent(t, m);
    DividesMultiple(m, z - E, a);
    assert (z - E) * a == t - (a * E + c);
    DividesAdd(m, t % m - t, (z - E) * a);
  }

  /** A remainder is congruent to its dividend. */
  lemma RemainderCongruent(t: int, m: int)
    requires m > 0
    ensures Divides(m, t % m - t)
  {
    DividesProduct(m, t / m);
    DividesAdd(m, 0, m * (t / m));
    assert t % m - t == 0 - m * (t / m);
  }

  /** m divides Iter(n, y) - (a^n * y + c * Geom(a, n)). */
  lemma {:induction false} IterCongruent(m: u32, a: u32, c: u32, y: u32, n: nat)
    requires 0 <= y < m && a * (m - 1) + c < TWO_32
    ensures Divides(m, Iter(m, a, c, y, n) - (Pow(a, n) * y + c * Geom(a, n)))
  {
    if n == 0 {
      DividesProduct(m, 0);
    } else {
      IterCongruent(m, a, c, y, n - 1);
      var z := Iter(m, a, c, y, n - 1);
      var P, G := Pow(a, n - 1), Geom(a, n - 1);
      StepExact(m, a, c, z);
      CongruentStep(m, a, c, z, P * y + c * G);
      AffineStep(a, P, G, y, c);
    }
  }

  lemma {:induction false} IterCompose(m: u32, a: u32, c: u32, x: u32, i: nat, j: nat)
    requires m > 0
    ensures Iter(m, a, c, x, i + j) == Iter(m, a, c, Iter(m, a, c, x, i), j)
  {
    if j > 0 {
      IterCompose(m, a, c, x, i, j - 1);
    }
  }

  /** A cycle of length n through y makes m divide Geom(a, n) * ((a - 1) * y + c). */
  lemma CycleDivides(m: int, a: int, c: int, y: int, n: nat)
    requires Divides(m, y - (Pow(a, n) * y + c * Geom(a, n)))
    ensures Divides(m, Geom(a, n) * ((a - 1) * y + c))
  {
    var P, G := Pow(a, n), Geom(a, n);
    GeomTimesPred(a, n);
    DividesAdd(m, 0, y - (P * y + c * G));
    CycleAlgebra(P, G, y, c, a);
  }

  lemma CycleAlgebra(P: int, G: int, y: int, c: int, a: int)
    requires (a - 1) * G == P - 1
    ensures 0 - (y - (P * y + c * G)) == G * ((a - 1) * y + c)
  {
    calc {
      0 - (y - (P * y + c * G));
      (P - 1) * y + c * G;
      ((a - 1) * G) * y + c * G;
      G * ((a - 1) * y + c);
    }
  }

  /** Every prime factor of m divides a - 1 and none divides c, so none divides (a - 1) * y + c. */
  lemma CoprimeShift(m: int, a: int, c: int, y: int)
    requires FullPeriodMultiplier(m, a) && CoprimeFactors(m, c)
    ensures CoprimeFactors(m, (a - 1) * y + c)
  {
    forall p | IsPrime(p) && Divides(p, m)
      ensures !Divides(p, (a - 1) * y + c)
    {
      DividesMultiple(p, a - 1, y);
      if Divides(p, (a - 1) * y + c) {
        DividesAdd(p, (a - 1) * y + c, (a - 1) * y);
      }
    }
  }

  /**
   * Under the Hull-Dobell conditions, with no wrap, no two of the first m
   * orbit values are equal.
   */
  lemma OrbitDistinct(m: u32, a: u32, c: u32, x0: u32, i: nat, j: nat)
    requires 0 <= x0 < m && a * (m - 1) + c < TWO_32
    requires FullPeriodMultiplier(m, a) && CoprimeFactors(m, c)
    requires i < j < m
    ensures Iter(m, a, c, x0, i) != Iter(m, a, c, x0, j)
  {
    var y := Iter(m, a, c, x0, i);
    var n := j - i;
    IterCompose(m, a, c, x0, i, n);
    if Iter(m, a, c, y, n) == y {
      IterCongruent(m, a, c, y, n);
      CycleDivides(m, a, c, y, n);
      CoprimeShift(m, a, c, y);
      ShortestPeriod(m, a, n, (a - 1) * y + c);
      NotDividingSmaller(m, n);
    }
  }

  lemma {:induction false} DistinctCard(s: seq<int>)
    requires forall i, j :: 0 <= i < j < |s| ==> s[i] != s[j]
    ensures |set x | x in s| == |s|
    decreases |s|
  {
    if |s| > 0 {
      var prefix, last := s[..|s| - 1], s[|s| - 1];
      DistinctCard(prefix);
      assert (set x | x in s) == (set x | x in prefix) + {last};
      assert last !in (set x | x in prefix);
    }
  }

  /** The set {0, ..., m - 1}. */
  function Below(m: nat): (r: set<int>)
    ensures forall v :: v in r <==> 0 <= v < m
    ensures |r| == m
  {
    if m == 0 then {} else Below(m - 1) + {m - 1}
  }

  lemma SubsetCard(A: set<int>, B: set<int>)
    requires A <= B
    ensures |A| <= |B|
    ensures |A| == |B| ==> A == B
  {
    assert A * B == A;
    assert A + B == B;
    if |A| == |B| {
      assert |B - A| == 0;
    }
  }

  /**
   * Hull-Dobell: with c sharing no prime factor with m, a - 1 divisible by
   * every prime factor of m (and by 4 when 4 | m), and no wrap, the first m
   * orbit values are a permutation of [0, m).
   */
  lemma FullPeriodOrbit(m: u32, a: u32, c: u32, x0: u32)
    requires 0 <= x0 < m && a * (m - 1) + c < TWO_32
    requires FullPeriodMultiplier(m, a) && CoprimeFactors(m, c)
    ensures forall i, j :: 0 <= i < j < m ==> Orbit(m, a, c, x0, m)[i] != Orbit(m, a, c, x0, m)[j]
    ensures forall v :: 0 <= v < m <==> v in Orbit(m, a, c, x0, m)
  {
    var s := Orbit(m, a, c, x0, m);
    forall i, j | 0 <= i < j < m
      ensures s[i] != s[j]
    {
      OrbitDistinct(m, a, c, x0, i, j);
    }
    var S := set x | x in s;
    assert S <= Below(m) by {
      forall x | x in S
        ensures x in Below(m)
      {
        var i :| 0 <= i < |s| && s[i] == x;
      }
    }
    DistinctCard(s);
    SubsetCard(S, Below(m));
    forall v | 0 <= v < m
      ensures v in s
    {
      assert v in Below(m);
    }
  }

  /**
   * For the multiplier and increment the constructor chooses, the orbit X
   * is a permutation of [0, m) whenever a * (m - 1) + c < 2^32.
   */
  lemma ConstructedOrbitPermutation(m: u32, a: u32, c: u32, x0: u32, samples: nat -> nat)
    requires 9 <= m <= INT_MAX && x0 < m
    requires a == Multiplier(m, Aggregate(Factors(m))) && c == Pick(Candidates(m), samples, 0, 1)
    requires a * (m - 1) + c < TWO_32
    ensures forall i, j :: 0 <= i < j < m ==> Orbit(m, a, c, x0, m)[i] != Orbit(m, a, c, x0, m)[j]
    ensures forall v :: 0 <= v < m <==> v in Orbit(m, a, c, x0, m)
  {
    ConstructedMultiplier(m);
    IncrementCoprime(m, samples);
    FullPeriodOrbit(m, a, c, x0);
  }

  /**
   * The 32-bit wrap is not harmless: with m = 65539, a = m + 1 and c = 3
   * the Hull-Dobell conditions hold, but the orbit from 65527 returns to
   * its start after 3 steps.
   */
  lemma WrappedOrbitRepeats()
    ensures FullPeriodMultiplier(65539, 65540) && CoprimeFactors(65539, 3)
    ensures Iter(65539, 65540, 3, 65527, 3) == Iter(65539, 65540, 3, 65527, 0)
  {
    assert FullPeriodMultiplier(65539, 65540) by {
      forall p | IsPrime(p) && Divides(p, 65539)
        ensures Divides(p, 65540 - 1)
      {
      }
    }
    forall p | IsPrime(p) && Divides(p, 65539)
      ensures !Divides(p, 3)
    {
      if Divides(p, 3) {
        PrimeDividesPrime(p, 3);
      }
    }
    assert UInt32(65540 * 65527 + 3) == 4294639583;
    assert Step(65539, 65540, 3, 65527) == 65530;
    assert UInt32(65540 * 65530 + 3) == 4294836203;
    assert Step(65539, 65540, 3, 65530) == 65533;
    assert UInt32(65540 * 65533 + 3) == 65527;
    assert Step(65539, 65540, 3, 65533) == 65527;
    assert Iter(65539, 65540, 3, 65527, 1) == 65530;
    assert Iter(65539, 65540, 3, 65527, 2) == 65533;
  }
}
