/**
 * WavAudio: a fixed RIFF/WAVE layout. The header is the first 0x2E bytes
 * (a 16-bit channel count at 0x16, a 16-bit sample width in bits at 0x22
 * and the 32-bit data length at 0x2A, all little-endian); the samples
 * follow from 0x2E. The constructor reads the samples into an array and
 * Save writes them back into the very byte array it was given.
 */
module WavAudio {
  import opened Machine
  import NumberTheory

  /** Where the samples start. */
  const START: nat := 0x2E

  /** The exceptions the constructor can raise. */
  datatype WavError =
    | HeaderTooShort     // Array.Copy of 0x2E header bytes from a shorter array
    | DivideByZero       // a channel count of 0
    | OutOfMemory        // more samples than an array can hold
    | SampleOutOfRange   // a sample read past the end of the array

  // ---------------------------------------------------------------------
  // Little-endian integers
  // ---------------------------------------------------------------------

  /** 256^width: the values that fit in width bytes are those below it. */
  function ByteBound(width: nat): (r: nat)
    ensures r >= 1
  {
    if width == 0 then 1 else 256 * ByteBound(width - 1)
  }

  /** The unsigned little-endian integer of the width bytes of d at off (BitConverter on a little-endian machine). */
  function LittleEndian(d: seq<byte>, off: nat, width: nat): (r: nat)
    requires off + width <= |d|
    ensures r < ByteBound(width)
    decreases width
  {
    if width == 0 then 0 else d[off] + 256 * LittleEndian(d, off + 1, width - 1)
  }

  /** The width bytes Save writes for v, lowest first. */
  function LittleEndianBytes(v: nat, width: nat): (s: seq<byte>)
    ensures |s| == width
  {
    if width == 0 then [] else [v % 256] + LittleEndianBytes(v / 256, width - 1)
  }

  /** Byte k of the little-endian form is (byte)((v >> 8k) & 0xFF), as Save computes it. */
  lemma BytesAreShifts(v: nat, width: nat)
    requires width <= 4
    ensures width >= 1 ==> LittleEndianBytes(v, width)[0] == v % 256
    ensures width >= 2 ==> LittleEndianBytes(v, width)[1] == v / 0x100 % 256
    ensures width >= 3 ==> LittleEndianBytes(v, width)[2] == v / 0x1_0000 % 256
    ensures width >= 4 ==> LittleEndianBytes(v, width)[3] == v / 0x100_0000 % 256
  {
    if width >= 2 {
      var q1 := v / 256;
      var q2 := q1 / 256;
      assert LittleEndianBytes(v, width)[1..] == LittleEndianBytes(q1, width - 1);
      assert LittleEndianBytes(q1, width - 1)[1..] == LittleEndianBytes(q2, width - 2);
      if width >= 3 {
        assert v == 256 * q1 + v % 256 && q1 == 256 * q2 + q1 % 256;
        NumberTheory.DivModUnique(v, 0x1_0000, q2, v % 256 + 256 * (q1 % 256));
        var q3 := q2 / 256;
        assert LittleEndianBytes(q2, width - 2)[1..] == LittleEndianBytes(q3, width - 3);
        if width == 4 {
          assert q2 == 256 * q3 + q2 % 256;
          NumberTheory.DivModUnique(v, 0x100_0000, q3, v % 256 + 256 * (q1 % 256) + 0x1_0000 * (q2 % 256));
        }
      }
    }
  }

  /** Writing the bytes of a value that was read gives the same bytes back. */
  lemma {:induction false} BytesOfRead(d: seq<byte>, off: nat, width: nat)
    requires off + width <= |d|
    ensures LittleEndianBytes(LittleEndian(d, off, width), width) == d[off..off + width]
    decreases width
  {
    if width > 0 {
      var rest := LittleEndian(d, off + 1, width - 1);
      var v := d[off] + 256 * rest;
      assert v % 256 == d[off] && v / 256 == rest;
      BytesOfRead(d, off + 1, width - 1);
      assert d[off..off + width] == [d[off]] + d[off + 1..off + width];
    }
  }

  /** Reading e at off + 1 is reading e[1..] at off. */
  lemma {:induction false} ReadShifted(e: seq<byte>, off: nat, width: nat)
    requires |e| >= 1 && off + 1 + width <= |e|
    ensures LittleEndian(e, off + 1, width) == LittleEndian(e[1..], off, width)
    decreases width
  {
    if width > 0 {
      ReadShifted(e, off + 1, width - 1);
    }
  }

  /** Reading the bytes written for a value that fits the width gives the value back. */
  lemma {:induction false} ReadOfBytes(v: nat, width: nat)
    requires v < ByteBound(width)
    ensures LittleEndian(LittleEndianBytes(v, width), 0, width) == v
    decreases width
  {
    if width > 0 {
      var s := LittleEndianBytes(v, width);
      ReadOfBytes(v / 256, width - 1);
      ReadShifted(s, 0, width - 1);
      assert s[1..] == LittleEndianBytes(v / 256, width - 1);
    }
  }

  /** Reading e at off is reading the slice e[off..off + width] at 0. */
  lemma {:induction false} ReadAt(e: seq<byte>, off: nat, width: nat)
    requires off + width <= |e|
    ensures LittleEndian(e, off, width) == LittleEndian(e[off..off + width], 0, width)
    decreases width
  {
    if width > 0 {
      var t := e[off..off + width];
      ReadAt(e, off + 1, width - 1);
      assert e[off + 1..off + 1 + (width - 1)] == t[1..];
      ReadShifted(t, 0, width - 1);
      var rest := LittleEndian(e, off + 1, width - 1);
      assert rest == LittleEndian(t, 1, width - 1);
      assert LittleEndian(e, off, width) == e[off] + 256 * rest;
      assert LittleEndian(t, 0, width) == t[0] + 256 * rest;
    }
  }

  /** The low three bytes of a four-byte read (BitConverter.ToUInt32 & 0xFFFFFF) are the three-byte read. */
  lemma LowThreeBytes(d: seq<byte>, off: nat)
    requires off + 4 <= |d|
    ensures LittleEndian(d, off, 4) % 0x100_0000 == LittleEndian(d, off, 3)
  {
    var low := LittleEndian(d, off, 3);
    var top: int := d[off + 3];
    assert LittleEndian(d, off + 3, 1) == top;
    assert LittleEndian(d, off, 4) == low + 0x100_0000 * top;
    NumberTheory.DivModUnique(LittleEndian(d, off, 4), 0x100_0000, top, low);
  }

  // ---------------------------------------------------------------------
  // The header and the samples as values
  // ---------------------------------------------------------------------

  function Channels(d: seq<byte>): nat
    requires |d| >= START
  {
    LittleEndian(d, 0x16, 2)
  }

  function BitsPerSample(d: seq<byte>): nat
    requires |d| >= START
  {
    LittleEndian(d, 0x22, 2)
  }

  function DataLength(d: seq<byte>): nat
    requires |d| >= START
  {
    LittleEndian(d, 0x2A, 4)
  }

  /** The sample widths the constructor accepts. */
  predicate Supported(bits: nat)
  {
    bits == 8 || bits == 16 || bits == 24 || bits == 32
  }

  /** The bytes per sample, BitsPerSample / 8. */
  function Width(bits: nat): nat
  {
    bits / 8
  }

  /** How many bytes the read of one sample touches: a 24-bit sample is read with a four-byte BitConverter.ToUInt32. */
  function ReadWidth(bits: nat): nat
  {
    if bits == 24 then 4 else bits / 8
  }

  /** TotalSamples: (data length / Channels) / (BitsPerSample / 8). */
  function TotalSamples(d: seq<byte>): nat
    requires |d| >= START && Channels(d) != 0 && Supported(BitsPerSample(d))
  {
    var perChannel: nat := DataLength(d) / Channels(d);
    var w := Width(BitsPerSample(d));
    assert w >= 1;
    perChannel / w
  }

  /** The byte offset of sample n, START + n * w, as the constructor and Save advance it. */
  function Offset(n: nat, w: nat): (r: nat)
    ensures r >= START
  {
    if n == 0 then START else Offset(n - 1, w) + w
  }

  /** Offsets grow with the sample index. */
  lemma {:induction false} OffsetMonotone(i: nat, n: nat, w: nat)
    requires i <= n
    ensures Offset(i, w) + (n - i) * w == Offset(n, w)
    decreases n
  {
    if i < n {
      OffsetMonotone(i, n - 1, w);
      assert (n - i) * w == (n - 1 - i) * w + w;
    }
  }

  /** The offset of a later sample is at least one width past an earlier one. */
  lemma OffsetBefore(i: nat, n: nat, w: nat)
    requires i < n
    ensures Offset(i, w) + w <= Offset(n, w)
  {
    OffsetMonotone(i, n, w);
    NumberTheory.MulMonotone(1, n - i, w);
  }

  /** Sample n as the constructor reads it. */
  function ReadSample(d: seq<byte>, bits: nat, n: nat): (r: u32)
    requires Supported(bits) && Offset(n, Width(bits)) + ReadWidth(bits) <= |d|
    ensures r == LittleEndian(d, Offset(n, Width(bits)), Width(bits))
  {
    var off := Offset(n, Width(bits));
    if bits == 8 then d[off]
    else if bits == 24 then
      LowThreeBytes(d, off);
      LittleEndian(d, off, 4) % 0x100_0000
    else if bits == 32 then LittleEndian(d, off, 4)
    else LittleEndian(d, off, 2)
  }

  /** The header is there and every one of total samples can be read from d. */
  predicate Readable(d: seq<byte>, bits: nat, total: nat)
    requires Supported(bits)
  {
    START <= |d| && (total == 0 || Offset(total - 1, Width(bits)) + ReadWidth(bits) <= |d|)
  }

  /** A sample before the last readable one is readable, and all of them end by the end of d. */
  lemma ReadableSample(d: seq<byte>, bits: nat, total: nat, n: nat)
    requires Supported(bits) && Readable(d, bits, total) && n < total
    ensures Offset(n, Width(bits)) + ReadWidth(bits) <= |d|
    ensures Offset(total, Width(bits)) <= |d|
  {
    if n < total - 1 {
      OffsetBefore(n, total - 1, Width(bits));
    }
  }

  /** The samples the constructor reads. */
  function Samples(d: seq<byte>, bits: nat, total: nat): (s: seq<u32>)
    requires Supported(bits) && Readable(d, bits, total)
    ensures |s| == total
  {
    seq(total, n requires 0 <= n < total => ReadableSample(d, bits, total, n); ReadSample(d, bits, n))
  }

  /** What the constructor fails with, if anything. */
  function ParseError(d: seq<byte>): Option<WavError>
  {
    if |d| < START then Some(HeaderTooShort)
    else if !Supported(BitsPerSample(d)) then None
    else if Channels(d) == 0 then Some(DivideByZero)
    else if TotalSamples(d) > MAX_LIST_LENGTH then Some(OutOfMemory)
    else if !Readable(d, BitsPerSample(d), TotalSamples(d)) then Some(SampleOutOfRange)
    else None
  }

  // ---------------------------------------------------------------------
  // Save as a function of the bytes and the samples
  // ---------------------------------------------------------------------

  /** d with bytes written at off. */
  function Store(d: seq<byte>, off: nat, bytes: seq<byte>): (r: seq<byte>)
    requires off + |bytes| <= |d|
    ensures |r| == |d|
  {
    seq(|d|, j requires 0 <= j < |d| => if off <= j < off + |bytes| then bytes[j - off] else d[j])
  }

  /** Store puts the bytes where it was asked to. */
  lemma StoreWritten(d: seq<byte>, off: nat, bytes: seq<byte>)
    requires off + |bytes| <= |d|
    ensures Store(d, off, bytes)[off..off + |bytes|] == bytes
  {
    assert forall j :: 0 <= j < |bytes| ==> Store(d, off, bytes)[off..off + |bytes|][j] == bytes[j];
  }

  /** Store keeps every slice that ends before its offset. */
  lemma StoreBefore(d: seq<byte>, off: nat, bytes: seq<byte>, a: nat, b: nat)
    requires off + |bytes| <= |d| && a <= b <= off
    ensures Store(d, off, bytes)[a..b] == d[a..b]
  {
    assert forall j :: 0 <= j < b - a ==> Store(d, off, bytes)[a..b][j] == d[a..b][j];
  }

  /** Storing the bytes already there changes nothing. */
  lemma StoreSame(d: seq<byte>, off: nat, w: nat)
    requires off + w <= |d|
    ensures Store(d, off, d[off..off + w]) == d
  {
    assert forall j :: 0 <= j < |d| ==> Store(d, off, d[off..off + w])[j] == d[j];
  }

  /** The first n samples of s written back, little-endian, each at its own offset. */
  function Saved(d: seq<byte>, s: seq<u32>, w: nat, n: nat): (r: seq<byte>)
    requires n <= |s| && Offset(n, w) <= |d|
    ensures |r| == |d|
  {
    if n == 0 then d
    else Store(Saved(d, s, w, n - 1), Offset(n - 1, w), LittleEndianBytes(s[n - 1], w))
  }

  /** Save touches only the bytes of the first n samples. */
  lemma {:induction false} SavedOutside(d: seq<byte>, s: seq<u32>, w: nat, n: nat, j: nat)
    requires n <= |s| && Offset(n, w) <= |d| && j < |d|
    requires j < START || j >= Offset(n, w)
    ensures Saved(d, s, w, n)[j] == d[j]
  {
    if n > 0 {
      var last := Offset(n - 1, w);
      var bytes := LittleEndianBytes(s[n - 1], w);
      assert Offset(n, w) == last + w;
      SavedOutside(d, s, w, n - 1, j);
      StoreOutside(Saved(d, s, w, n - 1), last, bytes, j);
    }
  }

  /** Store leaves every byte outside the stored range as it was. */
  lemma StoreOutside(d: seq<byte>, off: nat, bytes: seq<byte>, j: nat)
    requires off + |bytes| <= |d| && j < |d| && (j < off || j >= off + |bytes|)
    ensures Store(d, off, bytes)[j] == d[j]
  {
  }

  /** The bytes of sample i after Save are the little-endian form of s[i], for every sample written. */
  lemma {:induction false} SavedSample(d: seq<byte>, s: seq<u32>, w: nat, n: nat, i: nat)
    requires n <= |s| && Offset(n, w) <= |d| && i < n
    ensures Offset(i, w) + w <= |d|
    ensures Saved(d, s, w, n)[Offset(i, w)..Offset(i, w) + w] == LittleEndianBytes(s[i], w)
    decreases n
  {
    OffsetBefore(i, n, w);
    var bytes := LittleEndianBytes(s[n - 1], w);
    var prev := Saved(d, s, w, n - 1);
    var last := Offset(n - 1, w);
    var off := Offset(i, w);
    assert Saved(d, s, w, n) == Store(prev, last, bytes);
    if i < n - 1 {
      SavedSample(d, s, w, n - 1, i);
      OffsetBefore(i, n - 1, w);
      assert prev[off..off + w] == LittleEndianBytes(s[i], w);
      StoreBefore(prev, last, bytes, off, off + w);
    } else {
      assert off == last;
      StoreWritten(prev, last, bytes);
    }
  }

  /** Saved only looks at the first n samples. */
  lemma {:induction false} SavedPrefix(d: seq<byte>, s: seq<u32>, t: seq<u32>, w: nat, n: nat)
    requires n <= |s| && n <= |t| && s[..n] == t[..n] && Offset(n, w) <= |d|
    ensures Saved(d, s, w, n) == Saved(d, t, w, n)
  {
    if n > 0 {
      assert s[n - 1] == s[..n][n - 1] == t[n - 1];
      assert s[..n - 1] == s[..n][..n - 1];
      SavedPrefix(d, s, t, w, n - 1);
    }
  }

  /** Saving the samples just read, unchanged, leaves every byte as it was. */
  lemma {:induction false} SaveUnchanged(d: seq<byte>, bits: nat, n: nat)
    requires Supported(bits) && Readable(d, bits, n)
    ensures Offset(n, Width(bits)) <= |d|
    ensures Saved(d, Samples(d, bits, n), Width(bits), n) == d
  {
    var w := Width(bits);
    if n > 0 {
      ReadableSample(d, bits, n, n - 1);
      var s := Samples(d, bits, n);
      var off := Offset(n - 1, w);
      assert Saved(d, s, w, n - 1) == d by {
        assert Readable(d, bits, n - 1) by {
          if n > 1 { ReadableSample(d, bits, n, n - 2); }
        }
        SaveUnchanged(d, bits, n - 1);
        var t := Samples(d, bits, n - 1);
        SamplesPrefix(d, bits, n, n - 1);
        assert t[..n - 1] == t;
        SavedPrefix(d, s, t, w, n - 1);
      }
      assert LittleEndianBytes(s[n - 1], w) == d[off..off + w] by {
        assert s[n - 1] == LittleEndian(d, off, w);
        BytesOfRead(d, off, w);
      }
      assert Saved(d, s, w, n) == Store(Saved(d, s, w, n - 1), off, LittleEndianBytes(s[n - 1], w));
      StoreSame(d, off, w);
    }
  }

  /** Reading the samples back after Save gives the samples written, when each fits its width. */
  lemma SaveThenRead(d: seq<byte>, s: seq<u32>, bits: nat)
    requires Supported(bits) && Readable(d, bits, |s|)
    requires forall i :: 0 <= i < |s| ==> s[i] < ByteBound(Width(bits))
    ensures Offset(|s|, Width(bits)) <= |d|
    ensures Readable(Saved(d, s, Width(bits), |s|), bits, |s|)
    ensures Samples(Saved(d, s, Width(bits), |s|), bits, |s|) == s
  {
    SavedReadable(d, s, bits);
    SavedReadsAllBack(d, s, bits);
    SamplesAre(Saved(d, s, Width(bits), |s|), bits, s);
  }

  /** Reading fewer samples gives a prefix of the samples. */
  lemma SamplesPrefix(d: seq<byte>, bits: nat, n: nat, m: nat)
    requires Supported(bits) && Readable(d, bits, n) && m <= n
    ensures Readable(d, bits, m)
    ensures Samples(d, bits, n)[..m] == Samples(d, bits, m)
  {
    if 0 < m < n {
      ReadableSample(d, bits, n, m - 1);
    }
    var s, t := Samples(d, bits, n), Samples(d, bits, m);
    forall i | 0 <= i < m
      ensures s[i] == t[i]
    {
      ReadableSample(d, bits, n, i);
    }
  }

  /** The samples of e are s when each one reads as the corresponding element of s. */
  lemma SamplesAre(e: seq<byte>, bits: nat, s: seq<u32>)
    requires Supported(bits) && Readable(e, bits, |s|)
    requires forall i :: 0 <= i < |s| ==>
      Offset(i, Width(bits)) + ReadWidth(bits) <= |e| && ReadSample(e, bits, i) == s[i]
    ensures Samples(e, bits, |s|) == s
  {
    var r := Samples(e, bits, |s|);
    forall i | 0 <= i < |s|
      ensures r[i] == s[i]
    {
      ReadableSample(e, bits, |s|, i);
    }
  }

  /** Every sample read back after Save is the one written. */
  lemma SavedReadsAllBack(d: seq<byte>, s: seq<u32>, bits: nat)
    requires Supported(bits) && Readable(d, bits, |s|)
    requires forall i :: 0 <= i < |s| ==> s[i] < ByteBound(Width(bits))
    ensures Offset(|s|, Width(bits)) <= |d|
    ensures forall i :: 0 <= i < |s| ==>
      Offset(i, Width(bits)) + ReadWidth(bits) <= |d| && ReadSample(Saved(d, s, Width(bits), |s|), bits, i) == s[i]
  {
    SavedReadable(d, s, bits);
    forall i | 0 <= i < |s|
      ensures Offset(i, Width(bits)) + ReadWidth(bits) <= |d| && ReadSample(Saved(d, s, Width(bits), |s|), bits, i) == s[i]
    {
      SavedReadsBack(d, s, bits, i);
    }
  }

  /** Save keeps the length, so every sample stays readable. */
  lemma SavedReadable(d: seq<byte>, s: seq<u32>, bits: nat)
    requires Supported(bits) && Readable(d, bits, |s|)
    ensures Offset(|s|, Width(bits)) <= |d|
    ensures Readable(Saved(d, s, Width(bits), |s|), bits, |s|)
  {
    if |s| > 0 {
      ReadableSample(d, bits, |s|, |s| - 1);
    }
  }

  /** Sample i read back after Save is s[i]. */
  lemma SavedReadsBack(d: seq<byte>, s: seq<u32>, bits: nat, i: nat)
    requires Supported(bits) && Readable(d, bits, |s|) && i < |s|
    requires s[i] < ByteBound(Width(bits))
    ensures Offset(|s|, Width(bits)) <= |d|
    ensures Offset(i, Width(bits)) + ReadWidth(bits) <= |d|
    ensures ReadSample(Saved(d, s, Width(bits), |s|), bits, i) == s[i]
  {
    var w := Width(bits);
    ReadableSample(d, bits, |s|, i);
    var e := Saved(d, s, w, |s|);
    SavedSample(d, s, w, |s|, i);
    var off := Offset(i, w);
    var bytes := LittleEndianBytes(s[i], w);
    assert e[off..off + w] == bytes;
    ReadOfBytes(s[i], w);
    ReadAt(e, off, w);
    assert LittleEndian(e, off, w) == s[i];
  }

  /** Every 32-bit sample fits four bytes: a 32-bit file round-trips whatever the samples. */
  lemma FourBytesHoldU32(v: u32)
    ensures v < ByteBound(4)
  {
    assert ByteBound(4) == 0x1_0000_0000;
  }

  // ---------------------------------------------------------------------
  // The object
  // ---------------------------------------------------------------------

  class WavAudio {
    var data: array<byte>
    const channels: nat
    const bitsPerSample: nat
    const totalSamples: nat
    const samples: array<u32>
    const bytesAvailable: nat

    /** The samples array covers the sample bytes of data, which Save writes back. */
    ghost predicate Valid()
      reads this, data
    {
      && samples.Length == totalSamples
      && (Supported(bitsPerSample) ==> Readable(data[..], bitsPerSample, totalSamples))
      && (!Supported(bitsPerSample) ==> totalSamples == 0)
    }

    /**
     * new WavAudio(data) for an array it accepts: the header fields, the
     * samples read from the array, and BytesAvailable = TotalSamples / 8.
     * An unsupported sample width leaves no samples and an empty data.
     */
    constructor (d: array<byte>)
      requires ParseError(d[..]) == None
      ensures Valid() && channels == Channels(d[..]) && bitsPerSample == BitsPerSample(d[..])
      ensures fresh(samples)
      ensures Supported(bitsPerSample) ==>
        && data == d && totalSamples == TotalSamples(d[..])
        && samples[..] == Samples(d[..], bitsPerSample, totalSamples)
      ensures !Supported(bitsPerSample) ==> fresh(data) && data.Length == 0 && totalSamples == 0
      ensures bytesAvailable == totalSamples / 8
    {
      var header := d[..];
      channels := Channels(header);
      bitsPerSample := BitsPerSample(header);
      if Supported(BitsPerSample(header)) {
        var bits := BitsPerSample(header);
        var total := TotalSamples(header);
        var read := new u32[total];
        var i := START;
        var n := 0;
        while n < total
          invariant 0 <= n <= total && i == Offset(n, Width(bits))
          invariant read[..n] == Samples(header, bits, total)[..n]
        {
          ReadableSample(header, bits, total, n);
          read[n] := ReadSample(header, bits, n);
          i := i + Width(bits);
          n := n + 1;
        }
        data := d;
        totalSamples := total;
        samples := read;
        bytesAvailable := total / 8;
      } else {
        data := new byte[0];
        totalSamples := 0;
        samples := new u32[0];
        bytesAvailable := 0;
      }
    }

    /**
     * Save: each sample written back little-endian at its own offset; with
     * an unsupported width nothing is written.
     */
    method Save()
      requires Valid()
      modifies data
      ensures Supported(bitsPerSample) ==> Offset(totalSamples, Width(bitsPerSample)) <= data.Length
      ensures Supported(bitsPerSample) ==>
        data[..] == Saved(old(data[..]), samples[..], Width(bitsPerSample), totalSamples)
      ensures !Supported(bitsPerSample) ==> data[..] == old(data[..])
    {
      if Supported(bitsPerSample) {
        var w := Width(bitsPerSample);
        if totalSamples > 0 {
          ReadableSample(data[..], bitsPerSample, totalSamples, totalSamples - 1);
        }
        var i := START;
        var n := 0;
        while n < totalSamples
          invariant 0 <= n <= totalSamples && i == Offset(n, w) && Offset(totalSamples, w) <= data.Length
          invariant Offset(n, w) <= Offset(totalSamples, w)
          invariant data[..] == Saved(old(data[..]), samples[..], w, n)
        {
          OffsetBefore(n, totalSamples, w);
          WriteSample(i, samples[n], w);
          i := i + w;
          n := n + 1;
        }
      }
    }

    /** The switch of Save for one sample: its w bytes, (byte)(v >> 8k) for k = 0 .. w-1. */
    method WriteSample(off: nat, v: u32, w: nat)
      requires 1 <= w <= 4 && off + w <= data.Length
      modifies data
      ensures data[..] == Store(old(data[..]), off, LittleEndianBytes(v, w))
    {
      BytesAreShifts(v, w);
      data[off] := v % 256;
      if w >= 2 {
        data[off + 1] := v / 0x100 % 256;
      }
      if w >= 3 {
        data[off + 2] := v / 0x1_0000 % 256;
      }
      if w == 4 {
        data[off + 3] := v / 0x100_0000 % 256;
      }
    }
  }

  /** The constructor with its exceptions. */
  method Open(d: array<byte>) returns (r: Result<WavAudio, WavError>)
    ensures ParseError(d[..]).Some? ==> r == Failure(ParseError(d[..]).value)
    ensures ParseError(d[..]).None? ==>
      && r.Success? && fresh(r.value) && fresh(r.value.samples) && r.value.Valid()
      && r.value.bitsPerSample == BitsPerSample(d[..])
      && (Supported(r.value.bitsPerSample) ==>
            && r.value.data == d && r.value.totalSamples == TotalSamples(d[..])
            && r.value.samples[..] == Samples(d[..], r.value.bitsPerSample, r.value.totalSamples))
      && (!Supported(r.value.bitsPerSample) ==> fresh(r.value.data) && r.value.data.Length == 0 && r.value.totalSamples == 0)
  {
    var e := ParseError(d[..]);
    if e.Some? {
      return Failure(e.value);
    }
    var audio := new WavAudio(d);
    return Success(audio);
  }
}
