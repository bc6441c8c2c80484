/**
 * Extensions.RandomOrDefault: reservoir sampling with a reservoir of one.
 * The k-th element (counting from 1) replaces the current pick when the
 * generator's draw Next(k) is 0; an empty sequence is an error.
 */
module Extensions {
  import opened Machine
  import opened RandomSource

  /** The draw made for element j (counting from 0): Next(j + 1). */
  function ElementDraw(samples: nat -> nat, start: nat, j: nat): (r: int)
    ensures 0 <= r <= j
  {
    Draw(samples, start + j, 0, j + 1)
  }

  /**
   * The pick after the elements of source, drawn from sample `start` on:
   * the last element whose draw was 0, or the default when none was.
   */
  function Pick<T>(source: seq<T>, samples: nat -> nat, start: nat, defaultValue: T): T
    decreases |source|
  {
    if |source| == 0 then defaultValue
    else if ElementDraw(samples, start, |source| - 1) == 0 then source[|source| - 1]
    else Pick(source[..|source| - 1], samples, start, defaultValue)
  }

  /**
   * RandomOrDefault(source, rng, defaultValue). None stands for the
   * InvalidOperationException thrown on an empty sequence.
   */
  method RandomOrDefault<T>(source: seq<T>, rng: Random, defaultValue: T) returns (r: Option<T>)
    modifies rng
    ensures r == if |source| == 0 then None else Some(Pick(source, rng.samples, old(rng.drawn), defaultValue))
    ensures rng.drawn == old(rng.drawn) + |source|
  {
    var current := defaultValue;
    var count := 0;
    while count < |source|
      invariant 0 <= count <= |source|
      invariant rng.drawn == old(rng.drawn) + count
      invariant current == Pick(source[..count], rng.samples, old(rng.drawn), defaultValue)
    {
      var element := source[count];
      count := count + 1;
      var draw := rng.Next(0, count);
      if draw == 0 {
        current := element;
      }
      assert source[..count][..count - 1] == source[..count - 1];
    }
    assert source[..count] == source;
    if count == 0 {
      return None;
    }
    return Some(current);
  }

  /**
   * The first draw, Next(1), is always 0, so a non-empty sequence never
   * yields the default: the pick is an element whose draw was 0 and no
   * later element's draw was 0.
   */
  lemma {:induction false} PickIsLastZero<T>(source: seq<T>, samples: nat -> nat, start: nat, defaultValue: T)
    returns (k: nat)
    requires |source| >= 1
    ensures k < |source| && Pick(source, samples, start, defaultValue) == source[k]
    ensures ElementDraw(samples, start, k) == 0
    ensures forall j :: k < j < |source| ==> ElementDraw(samples, start, j) != 0
    decreases |source|
  {
    var n := |source|;
    if ElementDraw(samples, start, n - 1) == 0 {
      k := n - 1;
    } else {
      var prefix := source[..n - 1];
      k := PickIsLastZero(prefix, samples, start, defaultValue);
    }
  }

  /** For a non-empty sequence the pick is one of its elements. */
  lemma PickInSource<T>(source: seq<T>, samples: nat -> nat, start: nat, defaultValue: T)
    requires |source| >= 1
    ensures Pick(source, samples, start, defaultValue) in source
  {
    var k := PickIsLastZero(source, samples, start, defaultValue);
  }
}
