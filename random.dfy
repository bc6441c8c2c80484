/**
 * System.Random, seen from outside. A generator made with a given seed
 * always produces the same samples, so it is modelled as an oracle: a
 * fixed sequence `samples` of natural numbers, of which the i-th draw of
 * the generator consumes the i-th, reduced into the range asked for.
 * Every generator constructed from the same seed shares one such sequence.
 */
module RandomSource {

  /** The i-th draw of a generator with these samples, asked for a value in [minValue, maxValue). */
  function Draw(samples: nat -> nat, i: nat, minValue: int, maxValue: int): (r: int)
    requires minValue <= maxValue
    ensures minValue <= r
    ensures r < maxValue || r == minValue == maxValue
  {
    if minValue == maxValue then minValue else minValue + samples(i) % (maxValue - minValue)
  }

  class Random {
    /** The sample sequence of the seed this generator was made with. */
    const samples: nat -> nat
    /** How many samples have been consumed. */
    var drawn: nat

    /** new Random(seed), with the seed's sample sequence. */
    constructor (samples: nat -> nat)
      ensures this.samples == samples && drawn == 0
    {
      this.samples := samples;
      drawn := 0;
    }

    /**
     * Random.Next(minValue, maxValue): minValue when the bounds are equal,
     * else a value in [minValue, maxValue); either way one sample is used.
     * A maxValue below minValue throws, which callers check for first.
     */
    method Next(minValue: int, maxValue: int) returns (r: int)
      requires minValue <= maxValue
      modifies this
      ensures r == Draw(samples, old(drawn), minValue, maxValue)
      ensures drawn == old(drawn) + 1
    {
      r := Draw(samples, drawn, minValue, maxValue);
      drawn := drawn + 1;
    }
  }
}
