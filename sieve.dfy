/**
 * Sieve32.cs: a segmented sieve of Eratosthenes over odd numbers.
 *
 * The numbers 3, 5, 7, ..., U (U the odd upper limit) are split into
 * consecutive vectors; bit b of a vector stands for the odd number
 * startingNumber + 2 * b. The vectors' bits are kept here in one flat
 * array: flat index j stands for the odd number 3 + 2 * j, and vector k owns
 * the slice starting at Offset(vectors, k).
 */
module Sieve {
  import opened Machine
  import opened NumberTheory

  /** The exceptions the sieve can raise. */
  datatype SieveError =
    | BadUpperLimit          // ArgumentException: the limit is below 2
    | DivideByZero           // typicalNumberRange wrapped to 0
    | NegativeBitLength      // BitArray constructed with a negative length

  /** A vector: its first odd number and its number of bits. */
  datatype Vector = Vector(startingNumber: u32, bitLength: int)

  // ---------------------------------------------------------------------
  // Number <-> index arithmetic, with the source's unchecked wrap-around
  // ---------------------------------------------------------------------

  /** (int)((number - 3) >> 1) with number - 3 computed as a uint. */
  function ToFlatIndex(number: u32): (j: int)
    ensures 0 <= j <= INT_MAX
    ensures number >= 3 ==> j == (number - 3) / 2
  {
    UInt32(number - 3) / 2
  }

  /** Vector.ToIndex: (int)((number - startingNumber) >> 1) on uints. */
  function ToIndex(v: Vector, number: u32): (i: int)
    ensures 0 <= i <= INT_MAX
    ensures number >= v.startingNumber ==> i == (number - v.startingNumber) / 2
  {
    UInt32(number - v.startingNumber) / 2
  }

  /**
   * Vector.ToNumber: (uint)(bitIndex << 1) + startingNumber. Every step is
   * congruent modulo 2^32, so one final wrap gives the same uint.
   */
  function ToNumber(v: Vector, bitIndex: int): (n: u32)
    ensures 0 <= 2 * bitIndex + v.startingNumber < TWO_32 ==> n == v.startingNumber + 2 * bitIndex
  {
    UInt32(2 * bitIndex + v.startingNumber)
  }

  function EndingNumber(v: Vector): u32
  {
    ToNumber(v, v.bitLength - 1)
  }

  /** Floor of the square root, which (uint)Math.Sqrt(n) yields for every uint n. */
  function ISqrt(n: nat): nat
  {
    ISqrtFrom(n, 0)
  }

  lemma ISqrtBounds(n: nat)
    ensures ISqrt(n) * ISqrt(n) <= n < (ISqrt(n) + 1) * (ISqrt(n) + 1)
  {
  }

  function ISqrtFrom(n: nat, r: nat): (s: nat)
    requires r * r <= n
    ensures s * s <= n < (s + 1) * (s + 1)
    decreases n - r
  {
    if (r + 1) * (r + 1) > n then r
    else
      assert r + 1 <= (r + 1) * (r + 1) by { MulAtLeast(r + 1, r + 1); }
      ISqrtFrom(n, r + 1)
  }

  /** An even limit above 2 is lowered to the odd number below it. */
  function OddLimit(upperLimit: u32): (u: u32)
    ensures upperLimit > 2 ==> u % 2 == 1 && (u == upperLimit || u == upperLimit - 1)
    ensures upperLimit <= 2 ==> u == upperLimit
  {
    if upperLimit > 2 && upperLimit % 2 == 0 then upperLimit - 1 else upperLimit
  }

  /** VectorList.SquareRootIndex: the flat index of (uint)Math.Sqrt(limit). */
  function SquareRootIndex(limit: u32): int
  {
    ToFlatIndex(ISqrtBelow(limit))
  }

  function ISqrtBelow(n: u32): (r: u32)
    ensures r == ISqrt(n) && r < 0x1_0000
  {
    var r := ISqrt(n);
    ISqrtBounds(n);
    RootBelow(r, n);
    r
  }

  lemma RootBelow(r: nat, n: u32)
    requires r * r <= n
    ensures r < 0x1_0000
  {
    if r >= 0x1_0000 {
      MulMonotone(0x1_0000, r, r);
      MulMonotone(0x1_0000, r, 0x1_0000);
      assert false;
    }
  }

  /** PaddedLength: rounds up to a multiple of 32 using C#'s remainder. */
  function PaddedLength(length: int): (p: int)
    ensures 0 <= length <= INT_MAX - 32 ==> length <= p < length + 32 && p % 32 == 0
  {
    var remainder := TruncRem(length, 32);
    if remainder == 0 then length else Int32(length + 32 - remainder)
  }

  /** CalcTypicalBitLength, with the machine's processor count as a parameter. */
  function TypicalBitLength(limit: u32, processors: int): int
    requires 1 <= processors <= 0x0FFF_FFFF
  {
    var length := Int32(ToFlatIndex(limit) + 1);
    if limit < 10000 then length
    else PaddedLength(Int32(TruncDiv(length, 8 * processors) + 1))
  }

  /** GetSpecialFirstLength: the root vector must reach the square root's index. */
  function SpecialFirstLength(squareRootIndex: int, length: int): int
  {
    if squareRootIndex < length then length else PaddedLength(Int32(squareRootIndex + 1))
  }

  /** The Vector constructor: clamps the length so the vector ends at the limit. */
  function NewVector(startNumber: u32, length: int, limit: u32): Result<Vector, SieveError>
  {
    var endNumber := startNumber + Int32(2 * Int32(length - 1));
    var v := Vector(startNumber, length);
    var len := if endNumber > limit then Int32(ToIndex(v, limit) + 1) else length;
    if len < 0 then Failure(NegativeBitLength) else Success(Vector(startNumber, len))
  }

  // ---------------------------------------------------------------------
  // Tiling
  // ---------------------------------------------------------------------

  /** The flat index of the first bit of vector k. */
  function Offset(vectors: seq<Vector>, k: nat): int
    requires k <= |vectors|
  {
    if k == 0 then 0 else Offset(vectors, k - 1) + vectors[k - 1].bitLength
  }

  /**
   * The vectors cover 3, 5, ..., limit in order, without gaps or overlap:
   * vector k starts at the number of flat index Offset(vectors, k), and the
   * last one ends at the limit.
   */
  ghost predicate Tiles(limit: int, vectors: seq<Vector>)
  {
    |vectors| >= 1 && Consecutive(vectors) && 1 + 2 * Offset(vectors, |vectors|) == limit
  }

  /** Each vector is non-empty and starts right after the previous one ends. */
  ghost predicate Consecutive(vectors: seq<Vector>)
    decreases |vectors|
  {
    |vectors| == 0
    || (Consecutive(vectors[..|vectors| - 1])
        && vectors[|vectors| - 1].bitLength >= 1
        && vectors[|vectors| - 1].startingNumber == 3 + 2 * Offset(vectors, |vectors| - 1))
  }

  /** Appending the vector that starts where the others end keeps them consecutive. */
  lemma Extend(vectors: seq<Vector>, v: Vector)
    requires Consecutive(vectors)
    requires v.bitLength >= 1 && v.startingNumber == 3 + 2 * Offset(vectors, |vectors|)
    ensures Consecutive(vectors + [v])
    ensures Offset(vectors + [v], |vectors| + 1) == Offset(vectors, |vectors|) + v.bitLength
  {
    OffsetPrefix(vectors, v, |vectors|);
    assert (vectors + [v])[..|vectors|] == vectors;
  }

  lemma {:induction false} OffsetPrefix(vectors: seq<Vector>, v: Vector, k: nat)
    requires k <= |vectors|
    ensures Offset(vectors + [v], k) == Offset(vectors, k)
  {
    if k > 0 {
      OffsetPrefix(vectors, v, k - 1);
      assert (vectors + [v])[k - 1] == vectors[k - 1];
    }
  }

  lemma {:induction false} OffsetMonotone(vectors: seq<Vector>, i: nat, k: nat)
    requires i <= k <= |vectors|
    requires forall t :: 0 <= t < |vectors| ==> vectors[t].bitLength >= 1
    ensures Offset(vectors, i) + (k - i) <= Offset(vectors, k)
  {
    if i < k {
      OffsetMonotone(vectors, i, k - 1);
    }
  }

  // ---------------------------------------------------------------------
  // VectorList.Create
  // ---------------------------------------------------------------------

  /** Dividing by more gives less: x / d <= x / e for 1 <= e <= d. */
  lemma DivideByMore(x: nat, d: int, e: int)
    requires 1 <= e <= d
    ensures x / d <= x / e
  {
    var q := x / d;
    MulMonotone(e, d, q);
    DivModUnique(x, d, q, x % d);
    DivModUnique(x, e, x / e, x % e);
    if q > x / e {
      MulMonotone(x / e + 1, q, e);
      assert false;
    }
  }

  /** For limits from 9 on, the typical vector length is positive and far from overflow. */
  lemma TypicalBounds(limit: u32, processors: int)
    requires 1 <= processors <= 0x0FFF_FFFF && limit >= 9
    ensures 1 <= TypicalBitLength(limit, processors) <= 0x1000_0020
    ensures limit < 10000 ==> TypicalBitLength(limit, processors) == (limit - 3) / 2 + 1
  {
    var length := ToFlatIndex(limit) + 1;
    assert Int32(length) == length;
    if limit >= 10000 {
      LargeTypicalBounds(limit, processors, length);
    }
  }

  lemma QuotientByProcessors(length: int, processors: int) returns (t: int)
    requires 1 <= processors <= 0x0FFF_FFFF && 0 <= length <= INT_MAX
    ensures t == TruncDiv(length, 8 * processors) && 0 <= t <= 0x1000_0000
  {
    DivideByMore(length, 8 * processors, 8);
    t := length / (8 * processors);
  }

  lemma LargeTypicalBounds(limit: u32, processors: int, length: int)
    requires 1 <= processors <= 0x0FFF_FFFF && limit >= 10000
    requires length == ToFlatIndex(limit) + 1 == Int32(ToFlatIndex(limit) + 1)
    ensures 1 <= TypicalBitLength(limit, processors) <= 0x1000_0020
  {
    var t := QuotientByProcessors(length, processors);
    assert Int32(t + 1) == t + 1;
  }

  /** The square root's index fits in the first vector, whatever its clamping. */
  lemma SquareRootIndexBounds(limit: u32)
    requires limit >= 9
    ensures 0 <= SquareRootIndex(limit) <= (limit - 3) / 2
    ensures SquareRootIndex(limit) <= 0x7FFF
  {
    var r := ISqrt(limit);
    ISqrtBounds(limit);
    if r < 3 {
      MulMonotone(r + 1, 3, r + 1);
      assert false;
    }
    MulAtLeast(r, r);
    var _ := ISqrtBelow(limit);
  }

  /** Below 9 the square root is 1 or 2, and (uint)(1 - 3) >> 1 is int.MaxValue. */
  lemma SmallLimitRootIndex(limit: u32)
    requires 2 <= limit <= 8
    ensures SquareRootIndex(limit) == INT_MAX
  {
    var r := ISqrt(limit);
    ISqrtBounds(limit);
    if r >= 3 {
      MulMonotone(3, r, r);
      MulMonotone(3, r, 3);
      assert false;
    }
    if r == 0 {
      assert false;
    }
  }

  /** The ending number of a freshly built vector, when nothing wraps. */
  lemma NewVectorFits(startNumber: u32, length: int, limit: u32)
    requires 3 <= startNumber <= limit && startNumber % 2 == 1 && limit % 2 == 1
    requires 1 <= length <= 0x2000_0000
    ensures NewVector(startNumber, length, limit).Success?
    ensures var v := NewVector(startNumber, length, limit).value;
      v.startingNumber == startNumber && 1 <= v.bitLength <= length
      && EndingNumber(v) == startNumber + 2 * (v.bitLength - 1) <= limit
      && (v.bitLength == length || EndingNumber(v) == limit)
  {
    var v0 := Vector(startNumber, length);
    assert Int32(length - 1) == length - 1;
    assert Int32(2 * (length - 1)) == 2 * (length - 1);
    if startNumber + 2 * (length - 1) > limit {
      assert Int32(ToIndex(v0, limit) + 1) == (limit - startNumber) / 2 + 1;
    }
  }

  /** The number of a flat index is odd. */
  lemma OddNumber(j: int)
    ensures (1 + 2 * j) % 2 == 1
  {
    DivModUnique(1 + 2 * j, 2, j, 1);
  }

  /** n steps of the given range, as repeated addition. */
  function Steps(n: nat, range: int): int
  {
    if n == 0 then 0 else Steps(n - 1, range) + range
  }

  lemma {:induction false} StepsProduct(n: nat, range: int)
    ensures Steps(n, range) == n * range
  {
    if n > 0 {
      StepsProduct(n - 1, range);
      assert (n - 1) * range + range == n * range;
    }
  }

  /** count + 1 vectors of the typical range reach past the limit. */
  lemma PastLimit(limit: int, range: int)
    requires limit >= 0 && range > 0
    ensures 1 + Steps(limit / range + 2, range) > limit
  {
    StepsProduct(limit / range + 2, range);
    DivModUnique(limit, range, limit / range, limit % range);
    assert (limit / range + 2) * range == (limit / range) * range + 2 * range;
  }

  /**
   * VectorList.CreateVectors. From limit 9 on the vectors tile 3..limit and the
   * first one holds the square root's index; below 9 the int arithmetic wraps
   * and construction fails (division by zero at 2, a negative BitArray length
   * at 3, 5 and 7).
   */
  method CreateVectors(limit: u32, squareRootIndex: int, processors: int)
    returns (r: Result<seq<Vector>, SieveError>)
    requires 1 <= processors <= 0x0FFF_FFFF
    requires limit >= 2 && limit == OddLimit(limit) && squareRootIndex == SquareRootIndex(limit)
    ensures limit >= 9 <==> r.Success?
    ensures limit == 2 ==> r == Failure(DivideByZero)
    ensures 3 <= limit <= 8 ==> r == Failure(NegativeBitLength)
    ensures r.Success? ==> Tiles(limit, r.value) && squareRootIndex < r.value[0].bitLength
  {
    var typicalBitLength := TypicalBitLength(limit, processors);
    var typicalNumberRange := UInt32(2 * typicalBitLength);
    var firstLength := SpecialFirstLength(squareRootIndex, typicalBitLength);
    if limit >= 9 {
      TypicalBounds(limit, processors);
      SquareRootIndexBounds(limit);
    } else {
      SmallLimitRootIndex(limit);
    }
    if typicalNumberRange == 0 {
      return Failure(DivideByZero);
    }
    var count := UInt32(limit / typicalNumberRange + 1);
    if limit >= 9 {
      CountFits(limit, typicalNumberRange);
      PastLimit(limit, typicalNumberRange);
    } else {
      SmallLimitFirstLength(limit, typicalBitLength);
    }
    r := AddVectors(limit, squareRootIndex, typicalBitLength, firstLength, typicalNumberRange, count);
  }

  /** The vector count limit / range + 1 fits in a uint. */
  lemma CountFits(limit: u32, range: int)
    requires range >= 2
    ensures 0 <= limit / range <= limit / 2
  {
    DivideByMore(limit, range, 2);
  }

  /**
   * Below 9 the first vector's length is PaddedLength(int.MaxValue + 1), that is
   * int.MinValue, and its BitArray cannot be built.
   */
  lemma SmallLimitFirstLength(limit: u32, typicalBitLength: int)
    requires 3 <= limit <= 8 && typicalBitLength <= INT_MAX
    ensures SpecialFirstLength(INT_MAX, typicalBitLength) == -TWO_31
  {
    assert Int32(INT_MAX + 1) == -TWO_31;
    assert TruncRem(-TWO_31, 32) == 0;
  }

  /**
   * One step of CreateVectors: the vector after the ones built so far. A
   * length that fits yields a non-empty vector that keeps them consecutive and
   * ends at the latest at the limit; below limit 9 the first one fails.
   */
  method NextVector(vectors: seq<Vector>, endingNumber: u32, length: int, limit: u32)
    returns (built: Result<Vector, SieveError>)
    requires Consecutive(vectors) && limit % 2 == 1
    requires endingNumber == 1 + 2 * Offset(vectors, |vectors|) < limit
    ensures 1 <= length <= 0x2000_0000 ==>
      built.Success?
      && Consecutive(vectors + [built.value])
      && EndingNumber(built.value) == 1 + 2 * Offset(vectors + [built.value], |vectors| + 1) <= limit
      && EndingNumber(built.value) == endingNumber + 2 * built.value.bitLength
      && 1 <= built.value.bitLength <= length
      && (built.value.bitLength == length || EndingNumber(built.value) == limit)
    ensures 3 <= limit <= 8 && length == -TWO_31 ==> built == Failure(NegativeBitLength)
  {
    var startingNumber := UInt32(endingNumber + 2);
    built := NewVector(startingNumber, length, limit);
    if 1 <= length <= 0x2000_0000 {
      OddNumber(Offset(vectors, |vectors|) + 1);
      NewVectorFits(startingNumber, length, limit);
      Extend(vectors, built.value);
    }
    if 3 <= limit <= 8 && length == -TWO_31 {
      SmallLimitFails(startingNumber, limit);
    }
  }

  /** int.MinValue as a length wraps back to a negative BitArray length. */
  lemma SmallLimitFails(startNumber: u32, limit: u32)
    requires 3 <= startNumber <= limit <= 8
    ensures NewVector(startNumber, -TWO_31, limit) == Failure(NegativeBitLength)
  {
    assert Int32(-TWO_31 - 1) == INT_MAX;
    assert Int32(2 * INT_MAX) == -2;
  }

  /** The loop of CreateVectors, given the typical and first vector lengths. */
  method AddVectors(limit: u32, squareRootIndex: int, typicalBitLength: int, firstLength: int,
                    typicalNumberRange: u32, count: u32)
    returns (r: Result<seq<Vector>, SieveError>)
    requires limit >= 3 && limit % 2 == 1
    requires typicalNumberRange > 0
    requires limit >= 9 ==>
      1 <= typicalBitLength <= 0x1000_0020 && typicalNumberRange == 2 * typicalBitLength
      && 1 + Steps(count + 1, typicalNumberRange) > limit
      && squareRootIndex <= (limit - 3) / 2 && squareRootIndex < firstLength
      && typicalBitLength <= firstLength <= 0x2000_0000
    requires limit < 9 ==> firstLength == -TWO_31
    ensures limit >= 9 <==> r.Success?
    ensures limit < 9 ==> r == Failure(NegativeBitLength)
    ensures r.Success? ==> Tiles(limit, r.value) && squareRootIndex < r.value[0].bitLength
  {
    var vectors: seq<Vector> := [];
    var i := 0;
    var endingNumber: u32 := 1;
    ghost var reach := 1;
    while i <= count
      invariant 0 <= i <= count + 1 && |vectors| == i && reach == 1 + Steps(i, typicalNumberRange)
      invariant Consecutive(vectors)
      invariant endingNumber == 1 + 2 * Offset(vectors, |vectors|) <= limit
      invariant limit >= 9 ==> endingNumber == limit || endingNumber >= reach
      invariant i >= 1 ==> squareRootIndex < vectors[0].bitLength
      invariant limit < 9 ==> i == 0
      decreases count + 1 - i
    {
      if endingNumber >= limit {
        break;
      }
      var length := if i == 0 then firstLength else typicalBitLength;
      var built := NextVector(vectors, endingNumber, length, limit);
      if built.Failure? {
        return Failure(built.error);
      }
      var vector := built.value;
      vectors := vectors + [vector];
      endingNumber := EndingNumber(vector);
      i := i + 1;
      reach := reach + typicalNumberRange;
    }
    if endingNumber != limit {
      assert false;
    }
    return Success(vectors);
  }

  // ---------------------------------------------------------------------
  // Layout facts
  // ---------------------------------------------------------------------

  /** The recursive definition of Consecutive, read at one vector. */
  lemma {:induction false} ConsecutiveAt(vectors: seq<Vector>, k: int)
    requires Consecutive(vectors) && 0 <= k < |vectors|
    ensures vectors[k].bitLength >= 1 && vectors[k].startingNumber == 3 + 2 * Offset(vectors, k)
    decreases |vectors|
  {
    var n := |vectors|;
    if k < n - 1 {
      var prefix := vectors[..n - 1];
      ConsecutiveAt(prefix, k);
      assert vectors == prefix + [vectors[n - 1]];
      OffsetPrefix(prefix, vectors[n - 1], k);
    }
  }

  /** Later vectors start at larger flat indices. */
  lemma OffsetGrows(vectors: seq<Vector>, i: int, k: int)
    requires Consecutive(vectors) && 0 <= i <= k <= |vectors|
    ensures Offset(vectors, i) + (k - i) <= Offset(vectors, k)
    ensures Offset(vectors, 0) == 0 <= Offset(vectors, i)
  {
    forall t | 0 <= t < |vectors|
      ensures vectors[t].bitLength >= 1
    {
      ConsecutiveAt(vectors, t);
    }
    OffsetMonotone(vectors, i, k);
    OffsetMonotone(vectors, 0, i);
  }

  // ---------------------------------------------------------------------
  // Specification of the sieve: the primes below a bound
  // ---------------------------------------------------------------------

  /** The primes below n, in ascending order. */
  ghost function PrimesBelow(n: int): seq<int>
    decreases n
  {
    if n <= 2 then [] else PrimesBelow(n - 1) + (if IsPrime(n - 1) then [n - 1] else [])
  }

  /** PrimesBelow(n) holds exactly the primes below n. */
  lemma {:induction false} PrimesBelowMembers(n: int)
    ensures forall x :: x in PrimesBelow(n) <==> IsPrime(x) && x < n
    decreases n
  {
    if n > 2 {
      PrimesBelowMembers(n - 1);
    }
  }

  /** PrimesBelow(n) is strictly ascending. */
  lemma {:induction false} PrimesBelowAscending(n: int)
    ensures forall i, j :: 0 <= i < j < |PrimesBelow(n)| ==> PrimesBelow(n)[i] < PrimesBelow(n)[j]
    decreases n
  {
    if n > 2 {
      PrimesBelowAscending(n - 1);
      PrimesBelowMembers(n - 1);
      var s := PrimesBelow(n - 1);
      assert forall i :: 0 <= i < |s| ==> s[i] in s;
    }
  }

  /** The first prime is 2. */
  lemma PrimesBelowFirst(n: int)
    requires n >= 3
    ensures |PrimesBelow(n)| >= 1 && PrimesBelow(n)[0] == 2
  {
    PrimesBelowMembers(n);
    PrimesBelowAscending(n);
    assert 2 in PrimesBelow(n);
    var s := PrimesBelow(n);
    var i :| 0 <= i < |s| && s[i] == 2;
    assert s[0] in s;
    assert s[0] <= s[i];
  }

  /** An even number above 2 is not prime. */
  lemma EvenNotPrime(n: int)
    requires n >= 4 && n % 2 == 0
    ensures !IsPrime(n)
  {
    assert Divides(2, n);
  }

  /** Advancing one odd number adds it when it is prime. */
  lemma PrimesBelowOddStep(n: int)
    requires n >= 3 && n % 2 == 1
    ensures PrimesBelow(n + 2) == PrimesBelow(n) + (if IsPrime(n) then [n] else [])
  {
    EvenNotPrime(n + 1);
  }

  /** The bound 2 + an odd limit adds nothing to the limit plus one. */
  lemma PrimesBelowEvenStep(n: int)
    requires n >= 3 && n % 2 == 1
    ensures PrimesBelow(n + 2) == PrimesBelow(n + 1)
  {
    EvenNotPrime(n + 1);
  }

  // ---------------------------------------------------------------------
  // What marking one prime clears
  // ---------------------------------------------------------------------

  /**
   * Marking with prime p clears the odd number n when p divides it and either
   * n is at least p * p (the root vector, which ends at end0, starts at p * p)
   * or n lies beyond the root vector (every multiple of p is cleared there).
   */
  predicate StruckBy(p: int, n: int, end0: int)
  {
    Divides(p, n) && (n >= p * p || n > end0)
  }

  /** n is not cleared by marking any odd prime below bound. */
  ghost predicate Survives(n: int, bound: int, end0: int)
  {
    forall p :: 3 <= p < bound && IsPrime(p) ==> !StruckBy(p, n, end0)
  }

  /** Bit b is one of start, start + step, start + 2 * step, ... */
  predicate Hits(b: int, start: int, step: int)
    requires step > 0
  {
    b >= start && (b - start) % step == 0
  }

  /** An odd prime divides 2 * x exactly when it divides x. */
  lemma OddFactor(p: int, x: int)
    requires IsPrime(p) && p >= 3
    ensures Divides(p, 2 * x) <==> Divides(p, x)
  {
    if Divides(p, x) {
      DividesMultiple(p, x, 2);
    }
    if Divides(p, 2 * x) && !Divides(p, x) {
      Euclid(p, 2, x);
      assert false;
    }
  }

  /**
   * From an odd multiple m0 = s + 2 * start of an odd prime p, stepping p bits
   * (2 * p in number) visits exactly the multiples of p among s + 2 * b.
   */
  lemma HitsFrom(s: int, p: int, start: int, b: int)
    requires IsPrime(p) && p >= 3 && 0 <= start <= b && Divides(p, s + 2 * start)
    ensures Hits(b, start, p) <==> Divides(p, s + 2 * b)
  {
    var x := b - start;
    OddFactor(p, x);
    if Divides(p, s + 2 * b) {
      DividesAdd(p, s + 2 * b, s + 2 * start);
      assert (s + 2 * b) - (s + 2 * start) == 2 * x;
    }
    if Divides(p, 2 * x) {
      DividesAdd(p, s + 2 * start, 2 * x);
    }
  }

  /** In the hit sequence, the next hit after b is b + step. */
  lemma NextHit(x: int, b: int, start: int, step: int)
    requires step > 0 && Hits(b, start, step) && b <= x < b + step
    ensures Hits(x, start, step) <==> x == b
    ensures Hits(b + step, start, step)
  {
    var m := (b - start) / step;
    DivModUnique(b - start, step, m, 0);
    DivModUnique(x - start, step, m, x - b);
    DivModUnique(b + step - start, step, m + 1, 0);
  }

  /**
   * The start index of a vector other than the root one: with rem the remainder
   * of its odd starting number s by p, the first odd multiple of p from s on is
   * s + (p - rem), or s + (2p - rem) when that is even.
   */
  function OddMultipleStart(s: int, p: int): int
    requires p > 0
  {
    var rem := s % p;
    if rem == 0 then 0 else (p - rem + (if rem % 2 == 0 then p else 0)) / 2
  }

  /** OddMultipleStart finds the first odd multiple of p from s on. */
  lemma OddMultipleStartFirst(s: int, p: int, b: int)
    requires IsPrime(p) && p >= 3 && s % 2 == 1 && b >= 0
    ensures var start := OddMultipleStart(s, p);
      start >= 0 && Divides(p, s + 2 * start) && (b < start ==> !Divides(p, s + 2 * b))
  {
    var q, rem := s / p, s % p;
    DivModUnique(s, p, q, rem);
    assert !Divides(2, p);
    if rem != 0 {
      if rem % 2 == 1 {
        OddRemainderStart(s, p, q, rem, b);
      } else {
        EvenRemainderStart(s, p, q, rem, b);
      }
    }
  }

  lemma OddRemainderStart(s: int, p: int, q: int, rem: int, b: int)
    requires p >= 3 && p % 2 == 1 && s == q * p + rem && 0 < rem < p && rem % 2 == 1 && b >= 0
    ensures Divides(p, s + 2 * ((p - rem) / 2))
    ensures b < (p - rem) / 2 ==> !Divides(p, s + 2 * b)
  {
    assert s + 2 * ((p - rem) / 2) == (q + 1) * p;
    DividesProduct(p, q + 1);
    if b < (p - rem) / 2 {
      DivModUnique(s + 2 * b, p, q, rem + 2 * b);
    }
  }

  lemma EvenRemainderStart(s: int, p: int, q: int, rem: int, b: int)
    requires p >= 3 && p % 2 == 1 && s == q * p + rem && 0 < rem < p && rem % 2 == 0 && b >= 0
    ensures Divides(p, s + 2 * ((p - rem + p) / 2))
    ensures b < (p - rem + p) / 2 ==> !Divides(p, s + 2 * b)
  {
    assert s + 2 * ((p - rem + p) / 2) == (q + 2) * p;
    DividesProduct(p, q + 2);
    if b < (p - rem + p) / 2 {
      if rem + 2 * b < p {
        DivModUnique(s + 2 * b, p, q, rem + 2 * b);
      } else {
        assert (rem + 2 * b) % 2 == 0;
        DivModUnique(s + 2 * b, p, q + 1, rem + 2 * b - p);
      }
    }
  }

  /** Vector k >= 1: the hits from OddMultipleStart are the numbers marking clears. */
  lemma OuterVectorHits(s: int, p: int, b: int, end0: int)
    requires IsPrime(p) && p >= 3 && s % 2 == 1 && b >= 0 && s > end0
    ensures Hits(b, OddMultipleStart(s, p), p) <==> StruckBy(p, s + 2 * b, end0)
  {
    var start := OddMultipleStart(s, p);
    OddMultipleStartFirst(s, p, b);
    if b >= start {
      HitsFrom(s, p, start, b);
    }
  }

  /** The square of an odd number is odd. */
  lemma OddSquare(p: int)
    requires p % 2 == 1
    ensures (p * p) % 2 == 1
  {
    var h := p / 2;
    assert p == 2 * h + 1;
    assert p * p == 2 * (2 * h * h + 2 * h) + 1;
  }

  /** The index of p * p in the root vector, whose number p divides. */
  lemma SquareIndex(p: int) returns (start: int)
    requires IsPrime(p) && p >= 3
    ensures start == (p * p - 3) / 2 && start >= 0 && 3 + 2 * start == p * p && Divides(p, 3 + 2 * start)
  {
    assert !Divides(2, p);
    OddSquare(p);
    MulAtLeast(p, p);
    start := (p * p - 3) / 2;
    DividesProduct(p, p);
  }

  /** Root vector: the hits from the index of p * p are the numbers marking clears. */
  lemma RootVectorHits(p: int, b: int, end0: int)
    requires IsPrime(p) && p >= 3 && 0 <= b && 3 + 2 * b <= end0
    ensures Hits(b, (p * p - 3) / 2, p) <==> StruckBy(p, 3 + 2 * b, end0)
  {
    var start := SquareIndex(p);
    if b >= start {
      HitsFrom(3, p, start, b);
    }
  }

  // ---------------------------------------------------------------------
  // What survives the marking of every odd prime below a bound
  // ---------------------------------------------------------------------

  /** An odd number survives the primes below it exactly when it is prime. */
  lemma SurvivesOwn(n: int, end0: int)
    requires n >= 3 && n % 2 == 1
    ensures Survives(n, n, end0) <==> IsPrime(n)
  {
    if !IsPrime(n) {
      var q := CompositeFactor(n);
      assert q != 2;
      MulMonotone(2, q, q);
      assert StruckBy(q, n, end0);
    }
  }

  /** Raising the bound past an odd number adds that number's marking, if it is prime. */
  lemma SurvivesStep(n: int, bound: int, end0: int)
    requires bound >= 3 && bound % 2 == 1
    ensures Survives(n, bound + 2, end0)
        <==> Survives(n, bound, end0) && !(IsPrime(bound) && StruckBy(bound, n, end0))
  {
    EvenNotPrime(bound + 1);
  }

  /**
   * Once every odd prime up to the square root of the limit, and none beyond
   * the root vector, has been marked, exactly the primes survive.
   */
  lemma SurvivorsArePrimes(n: int, bound: int, end0: int, limit: int)
    requires 3 <= n <= limit && n % 2 == 1
    requires 3 <= bound <= end0 + 2 && bound % 2 == 1 && ISqrt(limit) < bound
    ensures Survives(n, bound, end0) <==> IsPrime(n)
  {
    if IsPrime(n) {
      forall p | 3 <= p < bound && IsPrime(p)
        ensures !StruckBy(p, n, end0)
      {
        PrimeNotStruck(p, n, bound, end0);
      }
    } else {
      CompositeStruck(n, bound, end0, limit);
    }
  }

  lemma PrimeNotStruck(p: int, n: int, bound: int, end0: int)
    requires IsPrime(n) && IsPrime(p) && 3 <= p < bound <= end0 + 2 && bound % 2 == 1
    ensures !StruckBy(p, n, end0)
  {
    assert !Divides(2, p);
    if Divides(p, n) {
      PrimeDividesPrime(p, n);
      MulMonotone(3, p, p);
    }
  }

  lemma CompositeStruck(n: int, bound: int, end0: int, limit: int)
    requires 3 <= n <= limit && n % 2 == 1 && !IsPrime(n) && ISqrt(limit) < bound
    ensures !Survives(n, bound, end0)
  {
    var q := CompositeFactor(n);
    assert q != 2;
    AtMostRoot(q, limit);
    assert StruckBy(q, n, end0);
  }

  /** A number whose square does not exceed n is at most ISqrt(n). */
  lemma AtMostRoot(q: nat, n: nat)
    requires q * q <= n
    ensures q <= ISqrt(n)
  {
    ISqrtBounds(n);
    var r := ISqrt(n);
    if q > r {
      MulMonotone(r + 1, q, q);
      MulMonotone(r + 1, q, r + 1);
    }
  }

  // ---------------------------------------------------------------------
  // The sieve object
  // ---------------------------------------------------------------------

  /** Marking p is allowed once p is an odd prime whose square is at most the limit. */
  lemma RootPrimeBounds(limit: u32, squareRootIndex: int, p: int)
    requires limit >= 9 && squareRootIndex == SquareRootIndex(limit) && 3 <= p <= 3 + 2 * squareRootIndex
    ensures p * p <= limit && ISqrt(limit) < 5 + 2 * squareRootIndex
  {
    ISqrtBounds(limit);
    var r := ISqrt(limit);
    var _ := ISqrtBelow(limit);
    SquareRootIndexBounds(limit);
    MulMonotone(p, r, p);
    MulMonotone(p, r, r);
  }

  /** The bits of vector k that the marking visits are those of the numbers it clears. */
  lemma VectorHits(vectors: seq<Vector>, k: int, prime: int, startIndex: int)
    requires Consecutive(vectors) && 0 <= k < |vectors| && IsPrime(prime) && prime >= 3
    requires k == 0 ==> vectors[0].startingNumber == 3 && startIndex == (prime * prime - 3) / 2
    requires k > 0 ==> startIndex == OddMultipleStart(vectors[k].startingNumber, prime)
    ensures forall j :: Offset(vectors, k) <= j < Offset(vectors, k + 1) ==>
      (Hits(j - Offset(vectors, k), startIndex, prime) <==> StruckBy(prime, 3 + 2 * j, 1 + 2 * Offset(vectors, 1)))
  {
    var offset := Offset(vectors, k);
    var end0 := 1 + 2 * Offset(vectors, 1);
    ConsecutiveAt(vectors, k);
    if k > 0 {
      OffsetGrows(vectors, 1, k);
    }
    forall j | offset <= j < Offset(vectors, k + 1)
      ensures Hits(j - offset, startIndex, prime) <==> StruckBy(prime, 3 + 2 * j, end0)
    {
      if k == 0 {
        RootVectorHits(prime, j - offset, end0);
      } else {
        OuterVectorHits(vectors[k].startingNumber, prime, j - offset, end0);
      }
    }
  }

  /**
   * Sieve32 over the odd numbers 3..upperLimit. Each Vector's BitArray is a
   * slice of the flat array bits: bit b of vectors[k] is bits[Offset(vectors, k) + b].
   */
  class Sieve32 {
    const upperLimit: u32
    const squareRootIndex: int
    const vectors: seq<Vector>
    const bits: array<bool>

    ghost predicate Valid()
    {
      upperLimit >= 9 && upperLimit % 2 == 1
      && squareRootIndex == SquareRootIndex(upperLimit)
      && Tiles(upperLimit, vectors) && squareRootIndex < vectors[0].bitLength
      && bits.Length == Offset(vectors, |vectors|)
    }

    /** The last number of the root vector. */
    ghost function RootEnd(): int
      requires Valid()
    {
      1 + 2 * Offset(vectors, 1)
    }

    /** The constructor: every bit starts set (BitArray(length, true)). */
    constructor (upperLimit: u32, squareRootIndex: int, vectors: seq<Vector>)
      requires upperLimit >= 9 && upperLimit % 2 == 1 && squareRootIndex == SquareRootIndex(upperLimit)
      requires Tiles(upperLimit, vectors) && squareRootIndex < vectors[0].bitLength
      ensures Valid() && fresh(bits)
      ensures this.upperLimit == upperLimit && this.vectors == vectors
      ensures forall j :: 0 <= j < bits.Length ==> bits[j]
    {
      this.upperLimit := upperLimit;
      this.squareRootIndex := squareRootIndex;
      this.vectors := vectors;
      bits := new bool[Offset(vectors, |vectors|)](_ => true);
    }

    /**
     * The body of MarkCompositesInParallel for one vector: clears bits from the
     * index of p * p (root vector) or of the first odd multiple of p (other
     * vectors), stepping p bits.
     */
    method MarkVector(k: int, prime: int)
      requires Valid() && 0 <= k < |vectors|
      requires IsPrime(prime) && prime >= 3 && prime * prime <= upperLimit
      modifies bits
      ensures forall j :: 0 <= j < bits.Length ==>
        bits[j] == (old(bits[j]) && !(Offset(vectors, k) <= j < Offset(vectors, k + 1)
                                     && StruckBy(prime, 3 + 2 * j, RootEnd())))
    {
      var vector := vectors[k];
      SliceBounds(k);
      var offset := Offset(vectors, k);
      var bitStep := prime;
      var startIndex := FirstMultiple(k, prime);
      var stopIndex := vector.bitLength - 1;
      ClearEvery(offset, startIndex, stopIndex, bitStep);
      VectorHits(vectors, k, prime, startIndex);
      ghost var end0 := RootEnd();
      forall j | 0 <= j < bits.Length
        ensures bits[j] == (old(bits[j]) && !(offset <= j < Offset(vectors, k + 1) && StruckBy(prime, 3 + 2 * j, end0)))
      {
        if offset <= j < Offset(vectors, k + 1) {
          assert Hits(j - offset, startIndex, prime) <==> StruckBy(prime, 3 + 2 * j, end0);
        }
      }
    }

    /** Vector k is the slice [Offset(k), Offset(k + 1)) of the bits. */
    lemma SliceBounds(k: int)
      requires Valid() && 0 <= k < |vectors|
      ensures 0 <= Offset(vectors, k) && Offset(vectors, k + 1) == Offset(vectors, k) + vectors[k].bitLength
      ensures Offset(vectors, k + 1) <= bits.Length && vectors[k].bitLength >= 1
      ensures vectors[k].startingNumber == 3 + 2 * Offset(vectors, k)
    {
      ConsecutiveAt(vectors, k);
      OffsetGrows(vectors, k, |vectors|);
      OffsetGrows(vectors, k + 1, |vectors|);
    }

    /**
     * The bit index of the first number a prime strikes in vector k: its
     * square in the root vector, else the first odd multiple.
     */
    method FirstMultiple(k: int, prime: int) returns (startIndex: int)
      requires Valid() && 0 <= k < |vectors|
      requires IsPrime(prime) && prime >= 3 && prime * prime <= upperLimit
      ensures startIndex >= 0
      ensures k == 0 ==> vectors[0].startingNumber == 3 && startIndex == (prime * prime - 3) / 2
      ensures k > 0 ==> startIndex == OddMultipleStart(vectors[k].startingNumber, prime)
    {
      var vector := vectors[k];
      var bitStep := prime;
      startIndex := 0;
      if k == 0 {
        ConsecutiveAt(vectors, 0);
        startIndex := ToIndex(vector, UInt32(prime * prime));
        MulAtLeast(prime, prime);
      } else {
        var remainder := vector.startingNumber % prime;
        if remainder != 0 {
          startIndex := bitStep - remainder;
          if remainder % 2 == 0 {
            startIndex := startIndex + bitStep;
          }
          startIndex := startIndex / 2;
        }
        ConsecutiveAt(vectors, k);
        OddNumber(1 + Offset(vectors, k));
        OddMultipleStartFirst(vector.startingNumber, prime, 0);
      }
    }

    /** The inner loop of the marking: clears bits start, start + step, ... up to stop of one vector. */
    method ClearEvery(offset: int, startIndex: int, stopIndex: int, bitStep: int)
      requires 0 <= offset && 0 <= startIndex && offset + stopIndex < bits.Length && bitStep > 0
      modifies bits
      ensures forall j :: 0 <= j < bits.Length ==>
        bits[j] == (old(bits[j]) && !(offset <= j <= offset + stopIndex && Hits(j - offset, startIndex, bitStep)))
    {
      var bitIndex := startIndex;
      NextHit(bitIndex, bitIndex, startIndex, bitStep);
      while bitIndex <= stopIndex
        invariant Hits(bitIndex, startIndex, bitStep)
        invariant forall j :: 0 <= j < bits.Length ==>
          bits[j] == (old(bits[j]) && !(offset <= j <= offset + stopIndex && j - offset < bitIndex
                                       && Hits(j - offset, startIndex, bitStep)))
      {
        bits[offset + bitIndex] := false;
        forall x | bitIndex <= x < bitIndex + bitStep
          ensures Hits(x, startIndex, bitStep) <==> x == bitIndex
        {
          NextHit(x, bitIndex, startIndex, bitStep);
        }
        NextHit(bitIndex, bitIndex, startIndex, bitStep);
        bitIndex := bitIndex + bitStep;
      }
    }

    /** MarkCompositesInParallel, run over the vectors one after another. */
    method MarkComposites(prime: int)
      requires Valid() && IsPrime(prime) && prime >= 3 && prime * prime <= upperLimit
      modifies bits
      ensures forall j :: 0 <= j < bits.Length ==>
        bits[j] == (old(bits[j]) && !StruckBy(prime, 3 + 2 * j, RootEnd()))
    {
      var vectorIndex := 0;
      while vectorIndex < |vectors|
        invariant 0 <= vectorIndex <= |vectors|
        invariant forall j :: 0 <= j < bits.Length ==>
          bits[j] == (old(bits[j]) && !(j < Offset(vectors, vectorIndex) && StruckBy(prime, 3 + 2 * j, RootEnd())))
      {
        OffsetGrows(vectors, vectorIndex, vectorIndex + 1);
        MarkVector(vectorIndex, prime);
        vectorIndex := vectorIndex + 1;
      }
    }

    /**
     * EnumeratePrimes: 2, then every root-vector bit still set up to the
     * square-root index (marking its multiples on all vectors), then every
     * set bit beyond it. The result is every prime up to the limit.
     */
    method EnumeratePrimes() returns (primes: seq<int>)
      requires Valid() && forall j :: 0 <= j < bits.Length ==> bits[j]
      modifies bits
      ensures primes == PrimesBelow(upperLimit + 2)
      ensures forall j :: 0 <= j < bits.Length ==> bits[j] == IsPrime(3 + 2 * j)
    {
      primes := [2];
      assert IsPrime(2);
      ghost var end0 := RootEnd();
      var rootBitIndex := squareRootIndex;
      Layout();
      var bitIndex := 0;
      while bitIndex <= rootBitIndex
        invariant 0 <= bitIndex <= rootBitIndex + 1
        invariant primes == PrimesBelow(3 + 2 * bitIndex)
        invariant forall j :: 0 <= j < bits.Length ==> bits[j] == Survives(3 + 2 * j, 3 + 2 * bitIndex, end0)
      {
        OddNumber(1 + bitIndex);
        PrimesBelowOddStep(3 + 2 * bitIndex);
        var found := RootStep(bitIndex);
        primes := primes + found;
        bitIndex := bitIndex + 1;
      }
      SievedArePrimes();
      primes := CollectRemaining(primes);
    }

    /**
     * One turn of the root loop: the bit at bitIndex is still set exactly
     * when its number is prime, and then that prime is yielded and its
     * multiples are marked, so the bits survive one more prime.
     */
    method RootStep(bitIndex: int) returns (found: seq<int>)
      requires Valid() && 0 <= bitIndex <= squareRootIndex
      requires forall j :: 0 <= j < bits.Length ==> bits[j] == Survives(3 + 2 * j, 3 + 2 * bitIndex, RootEnd())
      modifies bits
      ensures found == if IsPrime(3 + 2 * bitIndex) then [3 + 2 * bitIndex] else []
      ensures forall j :: 0 <= j < bits.Length ==> bits[j] == Survives(3 + 2 * j, 5 + 2 * bitIndex, RootEnd())
    {
      ghost var end0 := RootEnd();
      ghost var bound := 3 + 2 * bitIndex;
      Layout();
      OddNumber(1 + bitIndex);
      SurvivesOwn(bound, end0);
      forall j | 0 <= j < bits.Length
        ensures Survives(3 + 2 * j, bound + 2, end0)
                <==> Survives(3 + 2 * j, bound, end0) && !(IsPrime(bound) && StruckBy(bound, 3 + 2 * j, end0))
      {
        SurvivesStep(3 + 2 * j, bound, end0);
      }
      var rootVector := vectors[0];
      found := [];
      if bits[bitIndex] {
        var prime := ToNumber(rootVector, bitIndex);
        found := [prime];
        RootPrimeBounds(upperLimit, squareRootIndex, prime);
        MarkComposites(prime);
      }
    }

    /** Once every prime up to the square root has been marked, the set bits are the primes. */
    lemma SievedArePrimes()
      requires Valid()
      requires forall j :: 0 <= j < bits.Length ==> bits[j] == Survives(3 + 2 * j, 5 + 2 * squareRootIndex, RootEnd())
      ensures forall j :: 0 <= j < bits.Length ==> bits[j] == IsPrime(3 + 2 * j)
    {
      var end0 := RootEnd();
      var bound := 5 + 2 * squareRootIndex;
      Layout();
      RootPrimeBounds(upperLimit, squareRootIndex, 3);
      OddNumber(2 + squareRootIndex);
      assert 3 <= bound <= end0 + 2 && bound % 2 == 1 && ISqrt(upperLimit) < bound;
      forall j | 0 <= j < bits.Length
        ensures bits[j] == IsPrime(3 + 2 * j)
      {
        OddNumber(1 + j);
        assert 3 <= 3 + 2 * j <= upperLimit;
        SurvivorsArePrimes(3 + 2 * j, bound, end0, upperLimit);
      }
    }

    /** The inner loop of the second loop: the set bits of one vector from startIndex on. */
    method CollectVector(vectorIndex: int, startIndex: int, found: seq<int>) returns (primes: seq<int>)
      requires Valid() && 0 <= vectorIndex < |vectors| && 0 <= startIndex <= vectors[vectorIndex].bitLength
      requires forall j :: 0 <= j < bits.Length ==> bits[j] == IsPrime(3 + 2 * j)
      requires found == PrimesBelow(3 + 2 * (Offset(vectors, vectorIndex) + startIndex))
      ensures primes == PrimesBelow(3 + 2 * Offset(vectors, vectorIndex + 1))
    {
      var vector := vectors[vectorIndex];
      var offset := Offset(vectors, vectorIndex);
      SliceBounds(vectorIndex);
      var stopIndex := vector.bitLength - 1;
      primes := found;
      var bitIndex := startIndex;
      while bitIndex <= stopIndex
        invariant startIndex <= bitIndex <= stopIndex + 1
        invariant primes == PrimesBelow(3 + 2 * (offset + bitIndex))
      {
        VectorBit(vectorIndex, bitIndex);
        var number := ToNumber(vector, bitIndex);
        CollectStep(primes, offset + bitIndex, bits[offset + bitIndex], number);
        if bits[offset + bitIndex] {
          primes := primes + [number];
        }
        bitIndex := bitIndex + 1;
      }
    }

    /** Bit bitIndex of vector k is bit Offset(k) + bitIndex of the array, and stands for 3 + 2 * that index. */
    lemma VectorBit(k: int, bitIndex: int)
      requires Valid() && 0 <= k < |vectors| && 0 <= bitIndex < vectors[k].bitLength
      ensures 0 <= Offset(vectors, k) + bitIndex < bits.Length
      ensures ToNumber(vectors[k], bitIndex) == 3 + 2 * (Offset(vectors, k) + bitIndex)
    {
      SliceBounds(k);
      Layout();
    }

    /** One bit of CollectVector: the number of bit k joins the primes exactly when it is prime. */
    static lemma CollectStep(primes: seq<int>, k: int, bit: bool, number: int)
      requires k >= 0 && primes == PrimesBelow(3 + 2 * k)
      requires bit == IsPrime(3 + 2 * k) && number == 3 + 2 * k
      ensures (if bit then primes + [number] else primes) == PrimesBelow(3 + 2 * (k + 1))
    {
      OddNumber(1 + k);
      PrimesBelowOddStep(3 + 2 * k);
    }

    /** Where the root vector and the bits sit among the numbers 3, 5, ..., upperLimit. */
    lemma Layout()
      requires Valid()
      ensures vectors[0].startingNumber == 3 && Offset(vectors, 1) == vectors[0].bitLength
      ensures RootEnd() == 1 + 2 * vectors[0].bitLength
      ensures squareRootIndex < vectors[0].bitLength <= bits.Length && 1 + 2 * bits.Length == upperLimit
    {
      ConsecutiveAt(vectors, 0);
      OffsetGrows(vectors, 1, |vectors|);
    }

    /**
     * The second loop of EnumeratePrimes: every set bit past the root
     * square-root index, vector by vector, in order.
     */
    method CollectRemaining(found: seq<int>) returns (primes: seq<int>)
      requires Valid() && found == PrimesBelow(5 + 2 * squareRootIndex)
      requires forall j :: 0 <= j < bits.Length ==> bits[j] == IsPrime(3 + 2 * j)
      ensures primes == PrimesBelow(upperLimit + 2)
    {
      primes := found;
      var vectorIndex := 0;
      while vectorIndex < |vectors|
        invariant 0 <= vectorIndex <= |vectors|
        invariant vectorIndex == 0 ==> primes == PrimesBelow(5 + 2 * squareRootIndex)
        invariant vectorIndex > 0 ==> primes == PrimesBelow(3 + 2 * Offset(vectors, vectorIndex))
      {
        SliceBounds(vectorIndex);
        var startIndex := if vectorIndex == 0 then squareRootIndex + 1 else 0;
        primes := CollectVector(vectorIndex, startIndex, primes);
        vectorIndex := vectorIndex + 1;
      }
    }
  }

  /**
   * Sieve32.Primes(uint): every prime up to upperLimit in ascending order.
   * The machine's processor count is a parameter.
   */
  method Primes(upperLimit: u32, processors: int) returns (r: Result<seq<int>, SieveError>)
    requires 1 <= processors <= 0x0FFF_FFFF
    ensures upperLimit < 2 ==> r == Failure(BadUpperLimit)
    ensures upperLimit == 2 ==> r == Failure(DivideByZero)
    ensures 3 <= upperLimit <= 8 ==> r == Failure(NegativeBitLength)
    ensures upperLimit >= 9 ==> r == Success(PrimesBelow(upperLimit + 1))
  {
    if upperLimit < 2 {
      return Failure(BadUpperLimit);
    }
    var limit := OddLimit(upperLimit);
    var squareRootIndex := SquareRootIndex(limit);
    var created := CreateVectors(limit, squareRootIndex, processors);
    if created.Failure? {
      return Failure(created.error);
    }
    var sieve := new Sieve32(limit, squareRootIndex, created.value);
    var primes := sieve.EnumeratePrimes();
    if limit == upperLimit {
      PrimesBelowEvenStep(limit);
    }
    return Success(primes);
  }

  /** Sieve32.Primes(int): rejects limits below 2, else as Primes(uint). */
  method PrimesSigned(upperLimit: i32, processors: int) returns (r: Result<seq<int>, SieveError>)
    requires 1 <= processors <= 0x0FFF_FFFF
    ensures upperLimit < 2 ==> r == Failure(BadUpperLimit)
    ensures upperLimit == 2 ==> r == Failure(DivideByZero)
    ensures 3 <= upperLimit <= 8 ==> r == Failure(NegativeBitLength)
    ensures upperLimit >= 9 ==> r == Success(PrimesBelow(upperLimit + 1))
  {
    if upperLimit < 2 {
      return Failure(BadUpperLimit);
    }
    r := Primes(upperLimit, processors);
  }
}
