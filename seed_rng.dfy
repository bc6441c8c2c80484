/**
 * SeedRNG and SeedURNG: the address generators of the "random" embedders.
 * SeedRNG.Next walks the orbit of an LCG with modulus limit; both classes'
 * NextN draw without replacement from the list 0..limit-1; SeedURNG.Next
 * draws with rejection against the values it has already handed out.
 */
module SeedRng {
  import opened Machine
  import opened RandomSource
  import Lcg
  import NumberTheory

  /** The exceptions the generators can raise. */
  datatype RngError =
    | LimitOutOfRange                  // Random.Next(0, limit) with a negative limit
    | GeneratorFailed(error: Lcg.LcgError)
    | IndexOutOfRange                  // _exp[n] on an empty list
    | ListTooLong                      // OutOfMemoryException: the list would exceed Array.MaxLength

  /**
   * What a call that may loop without end gives: a value, an exception, or
   * OutOfFuel when the bounded model of the loop gave up; see SeedUrng.Next.
   */
  datatype Outcome<T> = Returned(value: T) | Raised(error: RngError) | OutOfFuel

  /** No value occurs twice in s. */
  ghost predicate NoDuplicates(s: seq<int>)
  {
    forall x :: multiset(s)[x] <= 1
  }

  /** Enumerable.Range(0, n).ToList(): 0, 1, ..., n - 1. */
  function Range(n: nat): (s: seq<int>)
    ensures |s| == n && forall i :: 0 <= i < n ==> s[i] == i
  {
    seq(n, i => i)
  }

  /** List.RemoveAt(n): s without its n-th element, the rest in order. */
  function RemoveAt(s: seq<int>, n: int): seq<int>
    requires 0 <= n < |s|
  {
    s[..n] + s[n + 1..]
  }

  /** Removing an element takes exactly that element out of the multiset. */
  lemma RemoveAtMultiset(s: seq<int>, n: int)
    requires 0 <= n < |s|
    ensures multiset(RemoveAt(s, n)) + multiset{s[n]} == multiset(s)
    ensures |RemoveAt(s, n)| == |s| - 1
  {
    assert s == s[..n] + [s[n]] + s[n + 1..];
  }

  /** A value at two positions of a list occurs at least twice in it. */
  lemma TwoOccurrences(s: seq<int>, i: int, j: int)
    requires 0 <= i < j < |s| && s[i] == s[j]
    ensures multiset(s)[s[i]] >= 2
  {
    var front, middle, back := s[..i], s[i + 1..j], s[j + 1..];
    assert s == front + [s[i]] + middle + [s[j]] + back;
    assert multiset(s) == multiset(front) + multiset{s[i]} + multiset(middle) + multiset{s[j]} + multiset(back);
  }

  /** The elements of a list without duplicates are pairwise distinct. */
  lemma NoDuplicatesDistinct(s: seq<int>, i: int, j: int)
    requires NoDuplicates(s) && 0 <= i < j < |s|
    ensures s[i] != s[j]
  {
    if s[i] == s[j] {
      TwoOccurrences(s, i, j);
      assert false;
    }
  }

  /** 0..n-1 has no duplicates. */
  lemma {:induction false} RangeNoDuplicates(n: nat)
    ensures NoDuplicates(Range(n))
  {
    if n > 0 {
      RangeNoDuplicates(n - 1);
      assert Range(n) == Range(n - 1) + [n - 1];
      assert (n - 1) !in Range(n - 1);
    }
  }

  /** The list a generator starts from (0..limit-1 when b, else empty) is a valid list of unreturned values. */
  lemma {:induction false} InitialList(limit: nat, b: bool)
    ensures var exp := if b then Range(limit) else [];
      NoDuplicates(exp + []) && forall x :: x in exp + [] ==> 0 <= x < limit
  {
    var exp := if b then Range(limit) else [];
    assert exp + [] == exp;
    RangeNoDuplicates(if b then limit else 0);
    assert exp == Range(if b then limit else 0);
  }

  /**
   * Moving the n-th element of the list to the end of the returned values
   * keeps the two together free of duplicates and inside [0, limit).
   */
  lemma MoveToReturned(exp: seq<int>, returned: seq<int>, n: int, limit: int)
    requires 0 <= n < |exp|
    requires NoDuplicates(exp + returned) && forall x :: x in exp + returned ==> 0 <= x < limit
    ensures NoDuplicates(RemoveAt(exp, n) + (returned + [exp[n]]))
    ensures forall x :: x in RemoveAt(exp, n) + (returned + [exp[n]]) ==> 0 <= x < limit
    ensures 0 <= exp[n] < limit
  {
    assert exp[n] in exp + returned;
    RemoveAtMultiset(exp, n);
    var rest := RemoveAt(exp, n);
    var moved := rest + (returned + [exp[n]]);
    assert multiset(moved) == multiset(rest) + multiset(returned) + multiset{exp[n]};
    assert multiset(exp + returned) == multiset(exp) + multiset(returned);
    assert multiset(moved) == multiset(exp + returned);
    forall x | x in moved
      ensures 0 <= x < limit
    {
      assert x in multiset(moved);
      assert x in multiset(exp + returned);
      assert x in exp + returned;
    }
  }

  /** The bounds of the value the i-th draw of Next(0, count) selects from a list of count elements. */
  lemma DrawIndex(samples: nat -> nat, i: nat, count: nat)
    requires count >= 1
    ensures 0 <= Draw(samples, i, 0, count) < count
  {
  }

  // ---------------------------------------------------------------------
  // SeedRNG
  // ---------------------------------------------------------------------

  class SeedRng {
    const limit: int
    const lcg: Lcg.Lcg
    const rand: Random
    var exp: seq<int>
    /** The values NextN has returned so far. */
    ghost var returned: seq<int>

    ghost predicate Valid()
      reads this, lcg
    {
      && lcg.Valid() && lcg.m == limit
      && NoDuplicates(exp + returned)
      && forall x :: x in exp + returned ==> 0 <= x < limit
    }

    /**
     * new SeedRNG(seed, limit, b) for a limit the LCG accepts: the LCG
     * starts from the first draw of new Random(seed) below limit, and NextN
     * draws from a second new Random(seed).
     */
    constructor (samples: nat -> nat, limit: i32, b: bool, processors: int)
      requires 9 <= limit <= MAX_LIST_LENGTH && 1 <= processors <= 0x0FFF_FFFF
      ensures Valid() && fresh(lcg) && fresh(rand)
      ensures this.limit == limit && lcg.index == 0 && lcg.samples == samples
      ensures lcg.x0 == Draw(samples, 0, 0, limit)
      ensures rand.samples == samples && rand.drawn == 0
      ensures exp == (if b then Range(limit) else []) && returned == []
    {
      var generator := StartLcg(samples, limit, processors);
      this.limit := limit;
      lcg := generator;
      rand := new Random(samples);
      exp := if b then Range(limit) else [];
      returned := [];
      new;
      InitialList(limit, b);
    }

    /** Next: (int) of the LCG's next orbit value. */
    method Next() returns (r: Result<int, RngError>)
      requires Valid()
      modifies lcg
      ensures Valid() && lcg.X == old(lcg.X) && lcg.a == old(lcg.a) && lcg.c == old(lcg.c)
      ensures 0 <= old(lcg.index) < limit ==>
        && r == Success(Lcg.Iter(lcg.m, lcg.a, lcg.c, lcg.x0, old(lcg.index)))
        && r.value < limit && lcg.index == old(lcg.index) + 1
      ensures !(0 <= old(lcg.index) < limit) ==>
        r == Failure(GeneratorFailed(Lcg.IndexOutOfRange)) && lcg.index == old(lcg.index)
    {
      var x := lcg.Next();
      if x.Failure? {
        return Failure(GeneratorFailed(x.error));
      }
      return Success(x.value);
    }

    /**
     * NextN: removes the element at a random position of the list and
     * returns it. On an empty list the draw Next(0, 0) is still made and
     * the read throws.
     */
    method NextN() returns (r: Result<int, RngError>)
      requires Valid()
      modifies this, rand
      ensures Valid() && rand.drawn == old(rand.drawn) + 1
      ensures old(|exp|) == 0 ==>
        r == Failure(IndexOutOfRange) && exp == old(exp) && returned == old(returned)
      ensures old(|exp|) > 0 ==>
        var n := Draw(rand.samples, old(rand.drawn), 0, old(|exp|));
        && 0 <= n < old(|exp|)
        && r == Success(old(exp)[n]) && 0 <= r.value < limit
        && exp == RemoveAt(old(exp), n) && returned == old(returned) + [r.value]
    {
      var n := rand.Next(0, |exp|);
      if !(0 <= n < |exp|) {
        return Failure(IndexOutOfRange);
      }
      var x := exp[n];
      MoveToReturned(exp, returned, n, limit);
      exp := RemoveAt(exp, n);
      returned := returned + [x];
      return Success(x);
    }
  }

  /** new LCG(limit, new Random(seed).Next(0, limit), seed): the orbit starts at the seed's first draw below limit. */
  method StartLcg(samples: nat -> nat, limit: i32, processors: int) returns (lcg: Lcg.Lcg)
    requires 9 <= limit <= MAX_LIST_LENGTH && 1 <= processors <= 0x0FFF_FFFF
    ensures fresh(lcg) && lcg.Valid() && lcg.m == limit && lcg.index == 0 && lcg.samples == samples
    ensures lcg.x0 == Draw(samples, 0, 0, limit)
  {
    var first := new Random(samples);
    var x0 := first.Next(0, limit);
    NumberTheory.DivModUnique(x0, limit, 0, x0);
    lcg := new Lcg.Lcg(limit, x0, samples, processors);
  }

  /**
   * The SeedRNG constructor for every limit: Random.Next(0, limit) rejects a
   * negative limit; then the LCG's own failures.
   */
  method CreateSeedRng(samples: nat -> nat, limit: i32, b: bool, processors: int)
    returns (r: Result<SeedRng, RngError>)
    requires 1 <= processors <= 0x0FFF_FFFF
    ensures limit < 0 ==> r == Failure(LimitOutOfRange)
    ensures limit == 0 ==> r == Failure(GeneratorFailed(Lcg.ModulusZero))
    ensures 1 <= limit < 9 ==> r.Failure? && r.error.GeneratorFailed?
    ensures limit > MAX_LIST_LENGTH ==> r == Failure(GeneratorFailed(Lcg.ListTooLong))
    ensures 9 <= limit <= MAX_LIST_LENGTH ==> r.Success? && fresh(r.value) && r.value.Valid()
  {
    if limit < 0 {
      return Failure(LimitOutOfRange);
    }
    var first := new Random(samples);
    var x0 := first.Next(0, limit);
    var generator := Lcg.Create(limit, x0, samples, processors);
    if generator.Failure? {
      return Failure(GeneratorFailed(generator.error));
    }
    var rng := new SeedRng(samples, limit, b, processors);
    return Success(rng);
  }

  // ---------------------------------------------------------------------
  // SeedURNG
  // ---------------------------------------------------------------------

  /** The outcome of a rejection loop and the number of draws it made. */
  datatype Rejection = Rejection(outcome: Outcome<int>, draws: nat)

  /**
   * The do-while loop of SeedURNG.Next from draw i on, given at most fuel
   * draws: draw x = Next(0, (int)limit) until x is not in obtained. A limit
   * of 2^31 or more is a negative int, which Random.Next rejects before
   * drawing.
   */
  function Reject(samples: nat -> nat, i: nat, limit: u32, obtained: seq<int>, fuel: nat): (r: Rejection)
    decreases fuel
  {
    if limit > INT_MAX then Rejection(Raised(LimitOutOfRange), 0)
    else if fuel == 0 then Rejection(OutOfFuel, 0)
    else
      var x := Draw(samples, i, 0, limit);
      if x !in obtained then Rejection(Returned(x), 1)
      else
        var rest := Reject(samples, i + 1, limit, obtained, fuel - 1);
        Rejection(rest.outcome, rest.draws + 1)
  }

  /**
   * A value the loop returns is below limit (or 0 when limit is 0, where
   * Random.Next(0, 0) returns 0) and was not obtained before.
   */
  lemma {:induction false} RejectFresh(samples: nat -> nat, i: nat, limit: u32, obtained: seq<int>, fuel: nat)
    ensures var r := Reject(samples, i, limit, obtained, fuel).outcome;
      r.Returned? ==> r.value !in obtained && (0 <= r.value < limit || r.value == limit == 0)
    decreases fuel
  {
    if limit <= INT_MAX && fuel > 0 && Draw(samples, i, 0, limit) in obtained {
      RejectFresh(samples, i + 1, limit, obtained, fuel - 1);
    }
  }

  /**
   * Once every value the draw can produce has been obtained, the loop never
   * returns, whatever the fuel: SeedURNG.Next spins forever rather than
   * reporting exhaustion.
   */
  lemma {:induction false} RejectExhausted(samples: nat -> nat, i: nat, limit: u32, obtained: seq<int>, fuel: nat)
    requires limit <= INT_MAX
    requires forall v :: 0 <= v < limit || v == limit == 0 ==> v in obtained
    ensures Reject(samples, i, limit, obtained, fuel).outcome == OutOfFuel
    decreases fuel
  {
    if fuel > 0 {
      RejectExhausted(samples, i + 1, limit, obtained, fuel - 1);
    }
  }

  class SeedUrng {
    const limit: u32
    const rand: Random
    var obtained: seq<int>
    var exp: seq<int>
    /** The values NextN has returned so far. */
    ghost var returned: seq<int>

    ghost predicate Valid()
      reads this
    {
      && NoDuplicates(obtained)
      && NoDuplicates(exp + returned)
      && forall x :: x in exp + returned ==> 0 <= x < limit
    }

    /**
     * new SeedURNG(seed, limit, b): draws come from new Random((int)seed);
     * with b the list 0..limit-1 is built, which a List can hold only up to
     * Array.MaxLength elements (CreateSeedUrng covers larger limits).
     */
    constructor (samples: nat -> nat, limit: u32, b: bool)
      requires b ==> limit <= MAX_LIST_LENGTH
      ensures Valid() && fresh(rand) && this.limit == limit
      ensures rand.samples == samples && rand.drawn == 0
      ensures obtained == [] && exp == (if b then Range(limit) else []) && returned == []
    {
      this.limit := limit;
      obtained := [];
      rand := new Random(samples);
      exp := [];
      returned := [];
      new;
      if b {
        var i: u32 := 0;
        while i < limit
          invariant 0 <= i <= limit && exp == Range(i)
          invariant obtained == [] && returned == [] && rand.drawn == 0
        {
          assert Range(i + 1) == Range(i) + [i];
          exp := exp + [i];
          i := i + 1;
        }
      }
      InitialList(limit, b);
    }

    /**
     * Next: draws until a value not yet obtained comes up, records it and
     * returns it. The loop is run for at most fuel draws.
     */
    method Next(fuel: nat) returns (r: Outcome<int>)
      requires Valid()
      modifies this, rand
      ensures var rejection := Reject(rand.samples, old(rand.drawn), limit, old(obtained), fuel);
        && r == rejection.outcome && rand.drawn == old(rand.drawn) + rejection.draws
        && obtained == (if r.Returned? then old(obtained) + [r.value] else old(obtained))
      ensures Valid() && exp == old(exp) && returned == old(returned)
    {
      if limit > INT_MAX {
        return Raised(LimitOutOfRange);
      }
      var remaining: nat := fuel;
      while remaining > 0
        invariant remaining <= fuel && obtained == old(obtained) && exp == old(exp) && returned == old(returned)
        invariant rand.drawn >= old(rand.drawn)
        invariant var rest := Reject(rand.samples, rand.drawn, limit, obtained, remaining);
          Reject(rand.samples, old(rand.drawn), limit, obtained, fuel)
            == Rejection(rest.outcome, rand.drawn - old(rand.drawn) + rest.draws)
        decreases remaining
      {
        var x := rand.Next(0, limit);
        remaining := remaining - 1;
        if x !in obtained {
          RejectFresh(rand.samples, rand.drawn - 1, limit, obtained, remaining + 1);
          obtained := obtained + [x];
          return Returned(x);
        }
      }
      return OutOfFuel;
    }

    /** NextN: as SeedRNG.NextN, over a list of uint. */
    method NextN() returns (r: Result<int, RngError>)
      requires Valid()
      modifies this, rand
      ensures Valid() && rand.drawn == old(rand.drawn) + 1 && obtained == old(obtained)
      ensures old(|exp|) == 0 ==>
        r == Failure(IndexOutOfRange) && exp == old(exp) && returned == old(returned)
      ensures old(|exp|) > 0 ==>
        var n := Draw(rand.samples, old(rand.drawn), 0, old(|exp|));
        && 0 <= n < old(|exp|)
        && r == Success(old(exp)[n]) && 0 <= r.value < limit
        && exp == RemoveAt(old(exp), n) && returned == old(returned) + [r.value]
    {
      var n := rand.Next(0, |exp|);
      if !(0 <= n < |exp|) {
        return Failure(IndexOutOfRange);
      }
      var x := exp[n];
      MoveToReturned(exp, returned, n, limit);
      exp := RemoveAt(exp, n);
      returned := returned + [x];
      return Success(x);
    }
  }

  /** The SeedURNG constructor for every limit. */
  method CreateSeedUrng(samples: nat -> nat, limit: u32, b: bool) returns (r: Result<SeedUrng, RngError>)
    ensures b && limit > MAX_LIST_LENGTH ==> r == Failure(ListTooLong)
    ensures !(b && limit > MAX_LIST_LENGTH) ==>
      && r.Success? && fresh(r.value) && r.value.Valid()
      && r.value.limit == limit && r.value.obtained == []
  {
    if b && limit > MAX_LIST_LENGTH {
      return Failure(ListTooLong);
    }
    var rng := new SeedUrng(samples, limit, b);
    return Success(rng);
  }
}
