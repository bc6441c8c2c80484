/**
 * AudioSteganography: the WAV embedders and decoders. A unit is eight
 * samples: bit x of the unit goes into the lowest bit of the x-th of them,
 * (sample & 0xFFFFFFFE) | ((value >> x) & 1), and a decoder puts the
 * lowest bits back together, value |= (sample & 1) << x.
 *
 * The sample indices come from an address stream that depends only on
 * TotalSamples: the "random" variants use SeedURNG(TotalSamples,
 * TotalSamples) (Next, or NextN in EncryptFile2 and DecryptFile2), which
 * is the addresses parameter here, and the linear variants use 0, 1, 2, ...
 *
 * The embedders change the samples, and Save writes them into the very
 * byte array they were given, which is also the array they return.
 */
module AudioSteganography {
  import opened Machine
  import opened Frames
  import WavAudio
  import FileCipher
  import HiddenFile
  import NumberTheory

  // ---------------------------------------------------------------------
  // Bits and samples
  // ---------------------------------------------------------------------

  /**
   * (value >> x) & 1. The values written are character codes and bytes,
   * never negative, where / and % agree with the shift and the mask.
   */
  function Bit(value: int, x: nat): (b: int)
    ensures 0 <= b <= 1
  {
    value / TwoTo(x) % 2
  }

  /** Every element is a single bit. */
  predicate Binary(bits: seq<int>)
  {
    forall k :: 0 <= k < |bits| ==> 0 <= bits[k] <= 1
  }

  /** The bits a frame is written as, one per sample: bit j % 8 of unit j / 8. */
  function FrameBits(frame: seq<int>): (bits: seq<int>)
    ensures |bits| == 8 * |frame| && Binary(bits)
    ensures forall j :: 0 <= j < |bits| ==> bits[j] == Bit(frame[j / 8], j % 8)
  {
    seq(8 * |frame|, j requires 0 <= j < 8 * |frame| => Bit(frame[j / 8], j % 8))
  }

  /** (sample & 0xFFFFFFFE) | bit: the lowest bit replaced, the others kept. */
  function SetLow(sample: u32, bit: int): (r: u32)
    requires 0 <= bit <= 1
    ensures r / 2 == sample / 2 && r % 2 == bit
  {
    sample - sample % 2 + bit
  }

  /** Every index names a sample: Samples[a] does not throw. */
  predicate AllInRange(addrs: seq<int>, total: nat)
  {
    forall k :: 0 <= k < |addrs| ==> 0 <= addrs[k] < total
  }

  /** Samples[a] = SetLow(Samples[a], bit). */
  function Poke(samples: seq<u32>, a: int, bit: int): (r: seq<u32>)
    requires 0 <= a < |samples| && 0 <= bit <= 1
    ensures |r| == |samples|
  {
    samples[a := SetLow(samples[a], bit)]
  }

  /** The samples after one bit is written at each index in turn. */
  function Poked(samples: seq<u32>, addrs: seq<int>, bits: seq<int>): (r: seq<u32>)
    requires |addrs| == |bits| && AllInRange(addrs, |samples|) && Binary(bits)
    ensures |r| == |samples|
    decreases |addrs|
  {
    if |addrs| == 0 then samples
    else
      var n := |addrs| - 1;
      Poke(Poked(samples, addrs[..n], bits[..n]), addrs[n], bits[n])
  }

  /**
   * The number of bits written when n bits are written from the i-th
   * index on: the writes stop at the first index past the samples or when
   * the stream runs out.
   */
  function Reach(addrs: seq<int>, n: nat, total: nat, i: nat): (k: nat)
    ensures i <= n && i <= |addrs| ==> i <= k <= n && k <= |addrs|
    ensures forall j :: i <= j < k && j < |addrs| ==> 0 <= addrs[j] < total
    ensures i <= k < n && k < |addrs| ==> !(0 <= addrs[k] < total)
    decreases n - i
  {
    if i >= n || i >= |addrs| || !(0 <= addrs[i] < total) then i
    else Reach(addrs, n, total, i + 1)
  }

  /** How writing n bits along the stream ends: all written, IndexOutOfRange, or the stream's end. */
  function Written(s: Stream<int>, n: nat, total: nat): Outcome<bool>
  {
    var k := Reach(s.addrs, n, total, 0);
    if k == n then Value(true) else if k < |s.addrs| then Exception else Stop(s.end)
  }

  /** The samples after the frame is written along the stream, as far as the writes get. */
  function Embedded(samples: seq<u32>, s: Stream<int>, frame: seq<int>): (r: seq<u32>)
    ensures |r| == |samples|
  {
    var bits := FrameBits(frame);
    var k := Reach(s.addrs, |bits|, |samples|, 0);
    assert AllInRange(s.addrs[..k], |samples|);
    Poked(samples, s.addrs[..k], bits[..k])
  }

  /** The linear variants' indices 0, 1, ..., total - 1; Samples[total] throws. */
  function LinearSamples(total: nat): (s: Stream<int>)
    ensures |s.addrs| == total && s.end == Throws && forall i :: 0 <= i < total ==> s.addrs[i] == i
  {
    Stream(seq(total, i requires 0 <= i < total => i), Throws)
  }

  // ---------------------------------------------------------------------
  // What the decoders read
  // ---------------------------------------------------------------------

  /** value |= low << x for x = 0, 1, ...: the bits put together, the first one lowest. */
  function Assemble(lows: seq<int>): (v: int)
    requires Binary(lows)
    ensures 0 <= v < TwoTo(|lows|)
    decreases |lows|
  {
    if |lows| == 0 then 0
    else
      var n := |lows| - 1;
      Assemble(lows[..n]) + lows[n] * TwoTo(n)
  }

  /** The lowest bits of the samples at the first n indices of a group. */
  function Lows(samples: seq<u32>, group: seq<int>, n: nat): (lows: seq<int>)
    requires n <= |group| && AllInRange(group[..n], |samples|)
    ensures |lows| == n && Binary(lows)
    ensures forall x :: 0 <= x < n ==> lows[x] == samples[group[x]] % 2
  {
    seq(n, x requires 0 <= x < n => assert group[..n][x] == group[x]; samples[group[x]] % 2)
  }

  /** The unit read at eight indices: the bits put together, or the IndexOutOfRange of one of them. */
  function GroupCell(samples: seq<u32>, group: seq<int>): (c: Cell)
    requires |group| == 8
    ensures c.Unit? <==> AllInRange(group, |samples|)
  {
    if AllInRange(group, |samples|) then
      assert group[..8] == group;
      Unit(Assemble(Lows(samples, group, 8)))
    else Fault
  }

  /** 8 * j + 8 indices are there for each of the n / 8 full groups. */
  lemma GroupBound(j: nat, n: nat)
    requires j < n / 8
    ensures 8 * j + 8 <= n
  {
    assert n == 8 * (n / 8) + n % 8;
  }

  /**
   * What a decoder reads along the stream: one unit per full group of
   * eight indices, then, when a later index past the samples comes before
   * the stream runs out, the exception of that read.
   */
  function AudioTape(samples: seq<u32>, s: Stream<int>): (t: Tape)
    ensures t.end == s.end
    ensures |t.cells| == |s.addrs| / 8 + (if AllInRange(s.addrs[|s.addrs| / 8 * 8..], |samples|) then 0 else 1)
    ensures forall j :: 0 <= j < |s.addrs| / 8 ==>
      8 * j + 8 <= |s.addrs| && t.cells[j] == GroupCell(samples, s.addrs[8 * j..8 * j + 8])
  {
    var full := |s.addrs| / 8;
    var cells := seq(full, j requires 0 <= j < full => GroupBound(j, |s.addrs|); GroupCell(samples, s.addrs[8 * j..8 * j + 8]));
    assert forall j :: 0 <= j < full ==> 8 * j + 8 <= |s.addrs| by {
      forall j | 0 <= j < full
        ensures 8 * j + 8 <= |s.addrs|
      {
        GroupBound(j, |s.addrs|);
      }
    }
    assert full * 8 <= |s.addrs|;
    var rest := s.addrs[full * 8..];
    Tape(cells + (if AllInRange(rest, |samples|) then [] else [Fault]), s.end)
  }

  // ---------------------------------------------------------------------
  // The loops
  // ---------------------------------------------------------------------

  /** One more index in range extends the range of the prefix. */
  lemma InRangeNext(addrs: seq<int>, total: nat, j: nat)
    requires j < |addrs| && AllInRange(addrs[..j], total) && 0 <= addrs[j] < total
    ensures AllInRange(addrs[..j + 1], total)
  {
    var front := addrs[..j + 1];
    forall k | 0 <= k < j + 1
      ensures 0 <= front[k] < total
    {
      if k < j {
        assert front[k] == addrs[..j][k];
      }
    }
  }

  /** A prefix of bits is bits. */
  lemma BinaryPrefix(bits: seq<int>, j: nat)
    requires j <= |bits| && Binary(bits)
    ensures Binary(bits[..j])
  {
    var front := bits[..j];
    forall k | 0 <= k < j
      ensures 0 <= front[k] <= 1
    {
      assert front[k] == bits[k];
    }
  }

  /** One more write along the indices: the written samples grow by one Poke. */
  lemma PokedNext(samples: seq<u32>, addrs: seq<int>, bits: seq<int>, j: nat)
    requires j < |addrs| && j < |bits| && Binary(bits)
    requires AllInRange(addrs[..j], |samples|) && 0 <= addrs[j] < |samples|
    ensures AllInRange(addrs[..j + 1], |samples|) && Binary(bits[..j]) && Binary(bits[..j + 1])
    ensures Poked(samples, addrs[..j + 1], bits[..j + 1]) == Poke(Poked(samples, addrs[..j], bits[..j]), addrs[j], bits[j])
  {
    InRangeNext(addrs, |samples|, j);
    BinaryPrefix(bits, j);
    BinaryPrefix(bits, j + 1);
    var front, firsts := addrs[..j + 1], bits[..j + 1];
    assert front[..j] == addrs[..j] && firsts[..j] == bits[..j];
    assert front[j] == addrs[j] && firsts[j] == bits[j];
  }

  /**
   * The write loops of the embedders: for each unit value and each x from
   * 0 to 7, the next index, then Samples[index] with its lowest bit
   * replaced by bit x of the value.
   */
  method WriteUnits(samples: array<u32>, s: Stream<int>, frame: seq<int>) returns (r: Outcome<bool>)
    modifies samples
    ensures r == Written(s, 8 * |frame|, samples.Length)
    ensures samples[..] == Embedded(old(samples[..]), s, frame)
  {
    ghost var before := samples[..];
    ghost var bits := FrameBits(frame);
    var j := 0;
    while j < 8 * |frame|
      invariant 0 <= j <= 8 * |frame| && j <= |s.addrs|
      invariant Reach(s.addrs, |bits|, samples.Length, 0) == Reach(s.addrs, |bits|, samples.Length, j)
      invariant AllInRange(s.addrs[..j], samples.Length) && Binary(bits[..j])
      invariant samples[..] == Poked(before, s.addrs[..j], bits[..j])
    {
      if j == |s.addrs| {
        return Stop(s.end);
      }
      var sample := s.addrs[j];
      if !(0 <= sample < samples.Length) {
        return Exception;
      }
      var value, x := frame[j / 8], j % 8;
      samples[sample] := SetLow(samples[sample], Bit(value, x));
      PokedNext(before, s.addrs, bits, j);
      j := j + 1;
    }
    assert s.addrs[..j] == s.addrs[..Reach(s.addrs, |bits|, samples.Length, 0)];
    return Value(true);
  }

  /** The inner read loop of the decoders: value |= (Samples[index] & 1) << x over the eight indices of a unit. */
  method ReadUnit(samples: array<u32>, group: seq<int>) returns (c: Cell)
    requires |group| == 8
    ensures c == GroupCell(samples[..], group)
  {
    var value := 0;
    var x := 0;
    while x < 8
      invariant 0 <= x <= 8 && AllInRange(group[..x], samples.Length)
      invariant value == Assemble(Lows(samples[..], group, x))
    {
      var sample := group[x];
      if !(0 <= sample < samples.Length) {
        return Fault;
      }
      ghost var lows := Lows(samples[..], group, x + 1);
      assert AllInRange(group[..x + 1], samples.Length) by {
        assert forall k :: 0 <= k < x ==> group[..x + 1][k] == group[..x][k];
      }
      assert lows[..x] == Lows(samples[..], group, x);
      value := value + samples[sample] % 2 * TwoTo(x);
      x := x + 1;
    }
    assert group[..8] == group;
    assert TwoTo(8) == 256;
    return Unit(value);
  }

  /** The units the decoders read, one full group of eight indices at a time. */
  method ReadTape(samples: array<u32>, s: Stream<int>) returns (t: Tape)
    ensures t == AudioTape(samples[..], s)
  {
    var full := |s.addrs| / 8;
    var cells := [];
    var j := 0;
    while j < full
      invariant 0 <= j <= full && |cells| == j
      invariant forall i :: 0 <= i < j ==> cells[i] == AudioTape(samples[..], s).cells[i]
    {
      GroupBound(j, |s.addrs|);
      var c := ReadUnit(samples, s.addrs[8 * j..8 * j + 8]);
      cells := cells + [c];
      j := j + 1;
    }
    assert full * 8 <= |s.addrs| by {
      assert |s.addrs| == 8 * full + |s.addrs| % 8;
    }
    var rest := s.addrs[full * 8..];
    t := Tape(cells + (if AllInRange(rest, samples.Length) then [] else [Fault]), s.end);
    assert t.cells == AudioTape(samples[..], s).cells;
  }

  // ---------------------------------------------------------------------
  // The WAV bytes
  // ---------------------------------------------------------------------

  /** TotalSamples as new WavAudio(d) sets it: 0 for an unsupported sample width. */
  function TotalOf(d: seq<byte>): nat
    requires WavAudio.ParseError(d) == None
  {
    if WavAudio.Supported(WavAudio.BitsPerSample(d)) then WavAudio.TotalSamples(d) else 0
  }

  /** The samples new WavAudio(d) reads. */
  function SamplesOf(d: seq<byte>): (samples: seq<u32>)
    requires WavAudio.ParseError(d) == None
    ensures |samples| == TotalOf(d)
  {
    var bits := WavAudio.BitsPerSample(d);
    if WavAudio.Supported(bits) then WavAudio.Samples(d, bits, WavAudio.TotalSamples(d)) else []
  }

  /** audio.BitsPerSample.ToString(): the password of the audio text ciphers. */
  function AudioPassword(d: seq<byte>): seq<char>
    requires |d| >= WavAudio.START
  {
    Digits(WavAudio.BitsPerSample(d))
  }

  /** The bytes after Save with the samples replaced; Save writes nothing for an unsupported width. */
  function SavedWav(d: seq<byte>, samples: seq<u32>): (r: seq<byte>)
    requires WavAudio.ParseError(d) == None && |samples| == TotalOf(d)
    ensures |r| == |d|
  {
    var bits := WavAudio.BitsPerSample(d);
    if WavAudio.Supported(bits) then
      WavAudio.SavedReadable(d, samples, bits);
      WavAudio.Saved(d, samples, WavAudio.Width(bits), |samples|)
    else d
  }

  // ---------------------------------------------------------------------
  // Embedders and decoders
  // ---------------------------------------------------------------------

  /**
   * The write loops and Save of the embedders: the frame along the stream,
   * then Save and audio.data when every write landed. An exception or a
   * generator that never returns during the writes leaves the bytes as
   * they were, since Save comes last.
   */
  method WriteAndSave(audio: WavAudio.WavAudio, s: Stream<int>, frame: seq<int>, ghost d: seq<byte>)
    returns (r: Outcome<array<byte>>)
    requires audio.Valid() && WavAudio.ParseError(d) == None && audio.bitsPerSample == WavAudio.BitsPerSample(d)
    requires WavAudio.Supported(audio.bitsPerSample) ==> audio.data[..] == d
    requires audio.totalSamples == TotalOf(d) && audio.samples[..] == SamplesOf(d)
    modifies audio.samples, audio.data
    ensures var written := Written(s, 8 * |frame|, TotalOf(d));
      && (written.Value? ==> r == Value(audio.data))
      && (!written.Value? ==> (r.Exception? <==> written.Exception?) && (r.Diverges? <==> written.Diverges?))
      && (WavAudio.Supported(audio.bitsPerSample) ==>
            audio.data[..] == if written.Value? then SavedWav(d, Embedded(SamplesOf(d), s, frame)) else d)
  {
    var written := WriteUnits(audio.samples, s, frame);
    if written != Value(true) {
      return if written.Exception? then Exception else Diverges;
    }
    audio.Save();
    return Value(audio.data);
  }

  /**
   * EncryptText (addresses from SeedURNG.Next) and EncryptTextLinear: the
   * text encrypted with the sample width as password (encrypt stands for
   * AESEncrypt.EncryptString) is written with its 0 when its length is at
   * most TotalSamples / 8, then Save; otherwise an empty array comes back
   * and nothing is saved. An exception or a generator that never returns
   * during the writes leaves the bytes as they were, since Save comes last.
   */
  method EncryptText(wav: array<byte>, text: seq<char>, encrypt: (seq<char>, seq<char>) -> seq<char>,
                     addresses: nat -> Stream<int>)
    returns (r: Outcome<array<byte>>)
    modifies wav
    ensures WavAudio.ParseError(old(wav[..])).Some? ==> r == Exception && wav[..] == old(wav[..])
    ensures WavAudio.ParseError(old(wav[..])).None? ==>
      var d := old(wav[..]);
      var encrypted := encrypt(text, AudioPassword(d));
      var s := addresses(TotalOf(d));
      var written := Written(s, 8 * |TextFrame(encrypted)|, TotalOf(d));
      if |encrypted| > TotalOf(d) / 8 then
        r.Value? && fresh(r.value) && r.value.Length == 0 && wav[..] == d
      else if written.Value? then
        r == Value(wav) && wav[..] == SavedWav(d, Embedded(SamplesOf(d), s, TextFrame(encrypted)))
      else
        (r.Exception? <==> written.Exception?) && (r.Diverges? <==> written.Diverges?) && wav[..] == d
  {
    var parsed := WavAudio.Open(wav);
    if parsed.Failure? {
      return Exception;
    }
    var audio := parsed.value;
    ghost var d := wav[..];
    var encrypted := encrypt(text, Digits(audio.bitsPerSample));
    if |encrypted| <= audio.totalSamples / 8 {
      r := WriteAndSave(audio, addresses(audio.totalSamples), TextFrame(encrypted), d);
    } else {
      var empty := new byte[0];
      return Value(empty);
    }
  }

  /** EncryptTextLinear: the same over 0, 1, 2, ...; a frame that needs more samples than there are throws. */
  method EncryptTextLinear(wav: array<byte>, text: seq<char>, encrypt: (seq<char>, seq<char>) -> seq<char>)
    returns (r: Outcome<array<byte>>)
    modifies wav
    ensures WavAudio.ParseError(old(wav[..])).Some? ==> r == Exception && wav[..] == old(wav[..])
    ensures WavAudio.ParseError(old(wav[..])).None? ==>
      var d := old(wav[..]);
      var encrypted := encrypt(text, AudioPassword(d));
      if |encrypted| > TotalOf(d) / 8 then
        r.Value? && fresh(r.value) && r.value.Length == 0 && wav[..] == d
      else if 8 * (|encrypted| + 1) <= TotalOf(d) then
        r == Value(wav) && wav[..] == SavedWav(d, Embedded(SamplesOf(d), LinearSamples(TotalOf(d)), TextFrame(encrypted)))
      else
        r == Exception && wav[..] == d
  {
    if WavAudio.ParseError(wav[..]).None? {
      LinearWritten(TotalOf(wav[..]), 8 * |TextFrame(encrypt(text, AudioPassword(wav[..])))|);
    }
    r := EncryptText(wav, text, encrypt, LinearSamples);
  }

  /**
   * DecryptText (addresses from SeedURNG.Next) and DecryptTextLinear: the
   * units up to the first 0 along the stream, then decrypted with the
   * sample width as password, where a failed decryption gives the empty
   * string. Opening the bytes and reading the units are not inside the
   * try block: their exceptions reach the caller.
   */
  method DecryptText(wav: array<byte>, addresses: nat -> Stream<int>, decrypt: (seq<char>, seq<char>) -> Option<seq<char>>)
    returns (r: Outcome<seq<char>>)
    ensures WavAudio.ParseError(wav[..]).Some? ==> r == Exception
    ensures WavAudio.ParseError(wav[..]).None? ==>
      r == DecryptOrEmpty(DecodeText(AudioTape(SamplesOf(wav[..]), addresses(TotalOf(wav[..]))), 0), decrypt, AudioPassword(wav[..]))
  {
    var parsed := WavAudio.Open(wav);
    if parsed.Failure? {
      return Exception;
    }
    var audio := parsed.value;
    var t := ReadTape(audio.samples, addresses(audio.totalSamples));
    var read := ReadUntilLoop(t, 0, 0);
    var text := match read case Value((units, _)) => Value(Chars(units)) case Exception => Exception case Diverges => Diverges;
    r := DecryptOrEmpty(text, decrypt, Digits(audio.bitsPerSample));
  }

  /** DecryptTextLinear: the same over 0, 1, 2, ... */
  method DecryptTextLinear(wav: array<byte>, decrypt: (seq<char>, seq<char>) -> Option<seq<char>>)
    returns (r: Outcome<seq<char>>)
    ensures WavAudio.ParseError(wav[..]).Some? ==> r == Exception
    ensures WavAudio.ParseError(wav[..]).None? ==>
      r == DecryptOrEmpty(DecodeText(AudioTape(SamplesOf(wav[..]), LinearSamples(TotalOf(wav[..]))), 0), decrypt, AudioPassword(wav[..]))
  {
    r := DecryptText(wav, LinearSamples, decrypt);
  }

  /** The file cipher's key, (int)audio.TotalSamples. */
  function AudioFileKey(d: seq<byte>): i32
    requires WavAudio.ParseError(d) == None
  {
    Int32(TotalOf(d))
  }

  /**
   * EncryptFile (addresses from SeedURNG.Next, or NextN in EncryptFile2)
   * and EncryptFileLinear: the file is ciphered with key TotalSamples
   * first, then written as a file frame when file.Length is at most
   * TotalSamples / 8 less extraBytes, then Save. Diverges stands for a pad
   * loop that does not finish within fuel steps.
   */
  method EncryptFile(wav: array<byte>, file: array<byte>, filename: seq<char>, addresses: nat -> Stream<int>,
                     cipher: FileCipher.FileCipher, fuel: nat)
    returns (r: Outcome<array<byte>>)
    requires cipher.Valid()
    modifies wav, cipher
    ensures WavAudio.ParseError(old(wav[..])).Some? ==> r == Exception && wav[..] == old(wav[..]) && unchanged(cipher)
    ensures WavAudio.ParseError(old(wav[..])).None? ==> cipher.Valid() && cipher.seed == AudioFileKey(old(wav[..]))
    ensures WavAudio.ParseError(old(wav[..])).None? && !FileCipher.PadReady(old(cipher.pad.Length), old(cipher.x), file.Length, fuel) ==>
      r == Diverges && wav[..] == old(wav[..])
    ensures WavAudio.ParseError(old(wav[..])).None? && FileCipher.PadReady(old(cipher.pad.Length), old(cipher.x), file.Length, fuel) ==>
      var d := old(wav[..]);
      var s := addresses(TotalOf(d));
      var frame := FileFrame(filename, old(file[..]));
      var written := Written(s, 8 * |frame|, TotalOf(d));
      && file.Length <= cipher.pad.Length
      && if file.Length > TotalOf(d) / 8 - ExtraBytes(filename, file.Length) then
           r.Value? && fresh(r.value) && r.value.Length == 0 && wav[..] == d
         else if written.Value? then
           r == Value(wav) && wav[..] == SavedWav(d, Embedded(SamplesOf(d), s, frame))
         else
           (r.Exception? <==> written.Exception?) && (r.Diverges? <==> written.Diverges?) && wav[..] == d
  {
    ghost var d := wav[..];
    var parsed := WavAudio.Open(wav);
    if parsed.Failure? {
      return Exception;
    }
    var audio := parsed.value;
    var extraBytes := ExtraBytes(filename, file.Length);
    var f := new HiddenFile.HiddenFile(file, filename);
    ghost var bytes := file[..];
    var done := f.CipherFile(Int32(audio.totalSamples), cipher, fuel);
    if !done {
      return Diverges;
    }
    assert f.file[..] == bytes && audio.Valid();
    if file.Length <= audio.totalSamples / 8 - extraBytes {
      r := WriteAndSave(audio, addresses(audio.totalSamples), FileFrame(filename, f.file[..]), d);
    } else {
      var empty := new byte[0];
      return Value(empty);
    }
  }

  /** EncryptFileLinear: the same frame at 0, 1, 2, ...; a file that passes the check always fits. */
  method EncryptFileLinear(wav: array<byte>, file: array<byte>, filename: seq<char>, cipher: FileCipher.FileCipher, fuel: nat)
    returns (r: Outcome<array<byte>>)
    requires cipher.Valid()
    modifies wav, cipher
    ensures WavAudio.ParseError(old(wav[..])).Some? ==> r == Exception && wav[..] == old(wav[..]) && unchanged(cipher)
    ensures WavAudio.ParseError(old(wav[..])).None? ==> cipher.Valid() && cipher.seed == AudioFileKey(old(wav[..]))
    ensures WavAudio.ParseError(old(wav[..])).None? && !FileCipher.PadReady(old(cipher.pad.Length), old(cipher.x), file.Length, fuel) ==>
      r == Diverges && wav[..] == old(wav[..])
    ensures WavAudio.ParseError(old(wav[..])).None? && FileCipher.PadReady(old(cipher.pad.Length), old(cipher.x), file.Length, fuel) ==>
      var d := old(wav[..]);
      && file.Length <= cipher.pad.Length
      && if file.Length > TotalOf(d) / 8 - ExtraBytes(filename, file.Length) then
           r.Value? && fresh(r.value) && r.value.Length == 0 && wav[..] == d
         else
           r == Value(wav) && wav[..] == SavedWav(d, Embedded(SamplesOf(d), LinearSamples(TotalOf(d)), FileFrame(filename, old(file[..]))))
  {
    if WavAudio.ParseError(wav[..]).None? {
      var total := TotalOf(wav[..]);
      FileCapacityExact(total, filename, file.Length);
      LinearWritten(total, 8 * |FileFrame(filename, file[..])|);
    }
    r := EncryptFile(wav, file, filename, LinearSamples, cipher, fuel);
  }

  /**
   * DecryptFile (addresses from SeedURNG.Next, or NextN in DecryptFile2)
   * and DecryptFileLinear: the file frame read along the stream, then new
   * HiddenFile and CipherFile with key TotalSamples. Everything is inside
   * the try block: an exception anywhere gives null (None).
   */
  method DecryptFile(wav: array<byte>, addresses: nat -> Stream<int>, cipher: FileCipher.FileCipher, fuel: nat)
    returns (r: Outcome<Option<HiddenFile.HiddenFile>>)
    requires cipher.Valid()
    modifies cipher
    ensures cipher.Valid()
    ensures WavAudio.ParseError(old(wav[..])).Some? ==> r == Value(None) && unchanged(cipher)
    ensures WavAudio.ParseError(old(wav[..])).None? ==>
      var d := old(wav[..]);
      var decoded := DecodeFile(AudioTape(SamplesOf(d), addresses(TotalOf(d))));
      && (decoded.Exception? ==> r == Value(None))
      && (decoded.Diverges? ==> r == Diverges)
      && (decoded.Value? && !FileCipher.PadReady(old(cipher.pad.Length), old(cipher.x), |decoded.value.1|, fuel) ==> r == Diverges)
      && (decoded.Value? && FileCipher.PadReady(old(cipher.pad.Length), old(cipher.x), |decoded.value.1|, fuel) ==>
            && r.Value? && r.value.Some? && fresh(r.value.value) && r.value.value.Valid()
            && r.value.value.filename == decoded.value.0 && r.value.value.file[..] == decoded.value.1
            && cipher.seed == AudioFileKey(d))
  {
    var parsed := WavAudio.Open(wav);
    if parsed.Failure? {
      return Value(None);
    }
    var audio := parsed.value;
    var t := ReadTape(audio.samples, addresses(audio.totalSamples));
    r := HiddenFile.RecoverFile(t, Int32(audio.totalSamples), cipher, fuel);
  }

  /** DecryptFileLinear: the same over 0, 1, 2, ... */
  method DecryptFileLinear(wav: array<byte>, cipher: FileCipher.FileCipher, fuel: nat)
    returns (r: Outcome<Option<HiddenFile.HiddenFile>>)
    requires cipher.Valid()
    modifies cipher
    ensures cipher.Valid()
    ensures WavAudio.ParseError(old(wav[..])).Some? ==> r == Value(None) && unchanged(cipher)
    ensures WavAudio.ParseError(old(wav[..])).None? ==>
      var d := old(wav[..]);
      var decoded := DecodeFile(AudioTape(SamplesOf(d), LinearSamples(TotalOf(d))));
      && (decoded.Exception? ==> r == Value(None))
      && (decoded.Diverges? ==> r == Diverges)
      && (decoded.Value? && !FileCipher.PadReady(old(cipher.pad.Length), old(cipher.x), |decoded.value.1|, fuel) ==> r == Diverges)
      && (decoded.Value? && FileCipher.PadReady(old(cipher.pad.Length), old(cipher.x), |decoded.value.1|, fuel) ==>
            && r.Value? && r.value.Some? && fresh(r.value.value) && r.value.value.Valid()
            && r.value.value.filename == decoded.value.0 && r.value.value.file[..] == decoded.value.1
            && cipher.seed == AudioFileKey(d))
  {
    r := DecryptFile(wav, LinearSamples, cipher, fuel);
  }

  // ---------------------------------------------------------------------
  // Where the writes land
  // ---------------------------------------------------------------------

  /** The first n indices of the stream are distinct sample indices, as SeedURNG's draws are. */
  predicate Spread(s: Stream<int>, n: nat, total: nat)
  {
    && n <= |s.addrs|
    && (forall k :: 0 <= k < n ==> 0 <= s.addrs[k] < total)
    && (forall i, j :: 0 <= i < j < n ==> s.addrs[i] != s.addrs[j])
  }

  /** Writes from the i-th index on all land when the indices up to n are in range. */
  lemma {:induction false} ReachAll(addrs: seq<int>, n: nat, total: nat, i: nat)
    requires i <= n <= |addrs| && forall k :: i <= k < n ==> 0 <= addrs[k] < total
    ensures Reach(addrs, n, total, i) == n
    decreases n - i
  {
    if i < n {
      ReachAll(addrs, n, total, i + 1);
    }
  }

  /** Along a spread stream every one of the n writes lands. */
  lemma SpreadWritten(s: Stream<int>, n: nat, total: nat)
    requires Spread(s, n, total)
    ensures Reach(s.addrs, n, total, 0) == n && Written(s, n, total) == Value(true)
  {
    ReachAll(s.addrs, n, total, 0);
  }

  /** The linear indices are spread over all the samples. */
  lemma LinearSpread(total: nat, n: nat)
    requires n <= total
    ensures Spread(LinearSamples(total), n, total)
  {
  }

  /** The writes along 0, 1, 2, ... from the i-th on stop at n or at the last sample. */
  lemma {:induction false} LinearReach(total: nat, n: nat, i: nat)
    requires i <= n && i <= total
    ensures Reach(LinearSamples(total).addrs, n, total, i) == if n <= total then n else total
    decreases n - i
  {
    if i < n && i < total {
      LinearReach(total, n, i + 1);
    }
  }

  /** Along 0, 1, 2, ... n writes all land when n <= total; otherwise Samples[total] throws. */
  lemma LinearWritten(total: nat, n: nat)
    ensures Written(LinearSamples(total), n, total) == if n <= total then Value(true) else Exception
  {
    LinearReach(total, n, 0);
  }

  /**
   * The text check admits one character too many: a text of exactly
   * TotalSamples / 8 characters passes it, but its frame with the 0 after
   * it needs more samples than there are, and along 0, 1, 2, ... the last
   * writes throw IndexOutOfRange.
   */
  lemma TextCapacityOffByOne(total: nat, encrypted: seq<char>)
    requires |encrypted| == total / 8
    ensures 8 * |TextFrame(encrypted)| > total
    ensures Written(LinearSamples(total), 8 * |TextFrame(encrypted)|, total) == Exception
  {
    assert total == 8 * (total / 8) + total % 8;
    LinearWritten(total, 8 * |TextFrame(encrypted)|);
  }

  /** The text check is one short of exact: the frames it admits that fit are those of fewer than TotalSamples / 8 characters. */
  lemma TextCapacity(total: nat, length: nat)
    ensures 8 * (length + 1) <= total <==> length < total / 8
  {
    assert total == 8 * (total / 8) + total % 8;
  }

  /** The file check is exact: a file passes it exactly when its frame fits the samples. */
  lemma FileCapacityExact(total: nat, name: seq<char>, length: nat)
    ensures length <= total / 8 - ExtraBytes(name, length) <==> 8 * (length + ExtraBytes(name, length)) <= total
  {
    assert total == 8 * (total / 8) + total % 8;
  }

  // ---------------------------------------------------------------------
  // What the decoders read back
  // ---------------------------------------------------------------------

  /** Bit n of v on top of its low n bits gives its low n + 1 bits. */
  lemma LowBitsNext(v: int, n: nat)
    ensures v % TwoTo(n + 1) == v % TwoTo(n) + Bit(v, n) * TwoTo(n)
  {
    var p := TwoTo(n);
    var q, r := v / p, v % p;
    var h, b := q / 2, q % 2;
    assert v == q * p + r;
    assert q == 2 * h + b;
    assert q * p == h * (2 * p) + b * p by {
      assert q * p == (2 * h + b) * p;
    }
    assert b * p + r < 2 * p by {
      assert b <= 1;
      NumberTheory.MulMonotone(b, 1, p);
    }
    NumberTheory.DivModUnique(v, 2 * p, h, b * p + r);
  }

  /** value |= ((v >> x) & 1) << x for x below n restores the low n bits of v. */
  lemma {:induction false} AssembleBits(v: int, lows: seq<int>)
    requires Binary(lows) && forall x :: 0 <= x < |lows| ==> lows[x] == Bit(v, x)
    ensures Assemble(lows) == v % TwoTo(|lows|)
    decreases |lows|
  {
    if |lows| > 0 {
      var n := |lows| - 1;
      var front := lows[..n];
      BinaryPrefix(lows, n);
      assert forall x :: 0 <= x < n ==> front[x] == Bit(v, x);
      AssembleBits(v, front);
      LowBitsNext(v, n);
    }
  }

  /** Every prefix of indices in range is in range. */
  lemma InRangePrefix(addrs: seq<int>, total: nat, n: nat)
    requires n <= |addrs| && AllInRange(addrs, total)
    ensures AllInRange(addrs[..n], total)
  {
    var front := addrs[..n];
    assert forall k :: 0 <= k < n ==> front[k] == addrs[k];
  }

  /** A bit written at an index is read back from it when no later write hits the same index. */
  lemma {:induction false} PokedAt(samples: seq<u32>, addrs: seq<int>, bits: seq<int>, k: nat)
    requires |addrs| == |bits| && AllInRange(addrs, |samples|) && Binary(bits) && k < |addrs|
    requires forall j :: k < j < |addrs| ==> addrs[j] != addrs[k]
    ensures Poked(samples, addrs, bits)[addrs[k]] % 2 == bits[k]
    decreases |addrs|
  {
    var n := |addrs| - 1;
    var front, firsts := addrs[..n], bits[..n];
    InRangePrefix(addrs, |samples|, n);
    BinaryPrefix(bits, n);
    if k < n {
      assert forall j :: k < j < n ==> front[j] == addrs[j];
      PokedAt(samples, front, firsts, k);
      assert front[k] == addrs[k] && firsts[k] == bits[k];
    }
  }

  /** Every sample is below bound. */
  predicate Fits(samples: seq<u32>, bound: nat)
  {
    forall i :: 0 <= i < |samples| ==> samples[i] < bound
  }

  /** Replacing lowest bits keeps every sample below an even bound: the samples still fit their width. */
  lemma {:induction false} PokedFits(samples: seq<u32>, addrs: seq<int>, bits: seq<int>, bound: nat)
    requires |addrs| == |bits| && AllInRange(addrs, |samples|) && Binary(bits)
    requires bound % 2 == 0 && Fits(samples, bound)
    ensures Fits(Poked(samples, addrs, bits), bound)
    decreases |addrs|
  {
    if |addrs| > 0 {
      var n := |addrs| - 1;
      InRangePrefix(addrs, |samples|, n);
      BinaryPrefix(bits, n);
      PokedFits(samples, addrs[..n], bits[..n], bound);
      var prev := Poked(samples, addrs[..n], bits[..n]);
      var low := SetLow(prev[addrs[n]], bits[n]);
      assert low < bound by {
        assert low == 2 * (low / 2) + low % 2;
        assert prev[addrs[n]] / 2 < bound / 2;
      }
    }
  }

  /** The frame written along the stream keeps the samples below an even bound. */
  lemma EmbeddedFits(samples: seq<u32>, s: Stream<int>, frame: seq<int>, bound: nat)
    requires bound % 2 == 0 && Fits(samples, bound)
    ensures Fits(Embedded(samples, s, frame), bound)
  {
    var bits := FrameBits(frame);
    var k := Reach(s.addrs, |bits|, |samples|, 0);
    BinaryPrefix(bits, k);
    PokedFits(samples, s.addrs[..k], bits[..k], bound);
  }

  /** Along a spread stream, the eight samples of unit k read back as the unit's low byte. */
  lemma UnitHeld(samples: seq<u32>, s: Stream<int>, frame: seq<int>, k: nat)
    requires Spread(s, 8 * |frame|, |samples|) && k < |frame|
    ensures 8 * k + 8 <= |s.addrs|
    ensures GroupCell(Embedded(samples, s, frame), s.addrs[8 * k..8 * k + 8]) == Unit(frame[k] % 256)
  {
    var bits := FrameBits(frame);
    var n := |bits|;
    SpreadWritten(s, n, |samples|);
    var addrs := s.addrs[..n];
    assert bits[..n] == bits;
    assert AllInRange(addrs, |samples|);
    var poked := Poked(samples, addrs, bits);
    assert Embedded(samples, s, frame) == poked;
    var group := s.addrs[8 * k..8 * k + 8];
    assert AllInRange(group, |samples|) by {
      assert forall x :: 0 <= x < 8 ==> group[x] == s.addrs[8 * k + x];
    }
    assert group[..8] == group;
    var lows := Lows(poked, group, 8);
    forall x | 0 <= x < 8
      ensures lows[x] == Bit(frame[k], x)
    {
      var j := 8 * k + x;
      assert group[x] == addrs[j];
      assert forall i :: j < i < n ==> addrs[i] != addrs[j];
      PokedAt(samples, addrs, bits, j);
      NumberTheory.DivModUnique(j, 8, k, x);
    }
    AssembleBits(frame[k], lows);
    assert TwoTo(8) == 256;
  }

  /** Along a spread stream, every unit of the frame is written, and the decoders' tape of the result holds the frame. */
  lemma EmbeddedHolds(samples: seq<u32>, s: Stream<int>, frame: seq<int>)
    requires Spread(s, 8 * |frame|, |samples|)
    ensures Written(s, 8 * |frame|, |samples|) == Value(true)
    ensures Holds(AudioTape(Embedded(samples, s, frame), s), 0, frame)
  {
    SpreadWritten(s, 8 * |frame|, |samples|);
    var t := AudioTape(Embedded(samples, s, frame), s);
    assert |frame| <= |s.addrs| / 8 by {
      assert |s.addrs| == 8 * (|s.addrs| / 8) + |s.addrs| % 8;
    }
    forall k | 0 <= k < |frame|
      ensures t.cells[k] == Unit(frame[k] % 256)
    {
      UnitHeld(samples, s, frame, k);
    }
  }

  /** Text round trip over a spread stream: the decoder reads back the encrypted text the embedder wrote. */
  lemma AudioTextRoundTrip(samples: seq<u32>, s: Stream<int>, encrypted: seq<char>)
    requires Plain(encrypted) && Spread(s, 8 * (|encrypted| + 1), |samples|)
    ensures DecodeText(AudioTape(Embedded(samples, s, TextFrame(encrypted)), s), 0) == Value(encrypted)
  {
    EmbeddedHolds(samples, s, TextFrame(encrypted));
    TextRoundTrip(AudioTape(Embedded(samples, s, TextFrame(encrypted)), s), encrypted);
  }

  /** File round trip over a spread stream: the decoder reads back the name and the bytes the embedder wrote. */
  lemma AudioFileRoundTrip(samples: seq<u32>, s: Stream<int>, name: seq<char>, bytes: seq<byte>)
    requires Plain(name) && |bytes| <= MAX_LIST_LENGTH && Spread(s, 8 * |FileFrame(name, bytes)|, |samples|)
    ensures DecodeFile(AudioTape(Embedded(samples, s, FileFrame(name, bytes)), s)) == Value((name, bytes))
  {
    EmbeddedHolds(samples, s, FileFrame(name, bytes));
    FileRoundTrip(AudioTape(Embedded(samples, s, FileFrame(name, bytes)), s), name, bytes);
  }

  // ---------------------------------------------------------------------
  // Save, then open again
  // ---------------------------------------------------------------------

  /** Save leaves the header alone. */
  lemma SavedHeader(d: seq<byte>, samples: seq<u32>)
    requires WavAudio.ParseError(d) == None && |samples| == TotalOf(d)
    ensures WavAudio.START <= |d| && SavedWav(d, samples)[..WavAudio.START] == d[..WavAudio.START]
  {
    var bits := WavAudio.BitsPerSample(d);
    if WavAudio.Supported(bits) {
      WavAudio.SavedReadable(d, samples, bits);
      forall j | 0 <= j < WavAudio.START
        ensures SavedWav(d, samples)[j] == d[j]
      {
        WavAudio.SavedOutside(d, samples, WavAudio.Width(bits), |samples|, j);
      }
    }
  }

  /** A header field reads the same from two arrays with the same header. */
  lemma HeaderField(d: seq<byte>, e: seq<byte>, off: nat, w: nat)
    requires WavAudio.START <= |d| && WavAudio.START <= |e| && off + w <= WavAudio.START
    requires e[..WavAudio.START] == d[..WavAudio.START]
    ensures WavAudio.LittleEndian(e, off, w) == WavAudio.LittleEndian(d, off, w)
  {
    WavAudio.ReadAt(e, off, w);
    WavAudio.ReadAt(d, off, w);
    assert e[off..off + w] == d[off..off + w] by {
      var header, original := e[..WavAudio.START], d[..WavAudio.START];
      forall i | off <= i < off + w
        ensures e[i] == d[i]
      {
        assert e[i] == header[i] == original[i] == d[i];
      }
    }
  }

  /**
   * Save, then new WavAudio on the same bytes: the same sample width and
   * count, and the very samples saved, when each fits its width.
   */
  lemma SavedWavReopens(d: seq<byte>, samples: seq<u32>)
    requires WavAudio.ParseError(d) == None && |samples| == TotalOf(d)
    requires Fits(samples, WavAudio.ByteBound(WavAudio.Width(WavAudio.BitsPerSample(d))))
    ensures WavAudio.ParseError(SavedWav(d, samples)) == None
    ensures WavAudio.BitsPerSample(SavedWav(d, samples)) == WavAudio.BitsPerSample(d)
    ensures TotalOf(SavedWav(d, samples)) == TotalOf(d)
    ensures SamplesOf(SavedWav(d, samples)) == samples
  {
    var e := SavedWav(d, samples);
    SavedHeader(d, samples);
    HeaderField(d, e, 0x16, 2);
    HeaderField(d, e, 0x22, 2);
    HeaderField(d, e, 0x2A, 4);
    var bits := WavAudio.BitsPerSample(d);
    if WavAudio.Supported(bits) {
      WavAudio.SaveThenRead(d, samples, bits);
    }
  }

  /** The samples read from the bytes fit their width, which makes the bound even. */
  lemma SamplesFit(d: seq<byte>)
    requires WavAudio.ParseError(d) == None
    ensures WavAudio.ByteBound(WavAudio.Width(WavAudio.BitsPerSample(d))) % 2 == 0 || TotalOf(d) == 0
    ensures Fits(SamplesOf(d), WavAudio.ByteBound(WavAudio.Width(WavAudio.BitsPerSample(d))))
  {
    var bits := WavAudio.BitsPerSample(d);
    if WavAudio.Supported(bits) {
      assert WavAudio.ByteBound(WavAudio.Width(bits)) == 256 * WavAudio.ByteBound(WavAudio.Width(bits) - 1);
    }
  }

  // ---------------------------------------------------------------------
  // Hiding and recovering, end to end
  // ---------------------------------------------------------------------

  /**
   * Embedding a text and decoding it along the same spread stream gives
   * the text back, when decrypt inverts encrypt and the cipher text is
   * plain (Base64 is ASCII, without 0).
   */
  method HideAndRecoverText(wav: array<byte>, text: seq<char>, encrypt: (seq<char>, seq<char>) -> seq<char>,
                            decrypt: (seq<char>, seq<char>) -> Option<seq<char>>, addresses: nat -> Stream<int>)
    returns (recovered: Outcome<seq<char>>)
    requires WavAudio.ParseError(wav[..]) == None
    requires Plain(encrypt(text, AudioPassword(wav[..])))
    requires |encrypt(text, AudioPassword(wav[..]))| <= TotalOf(wav[..]) / 8
    requires Spread(addresses(TotalOf(wav[..])), 8 * (|encrypt(text, AudioPassword(wav[..]))| + 1), TotalOf(wav[..]))
    requires decrypt(encrypt(text, AudioPassword(wav[..])), AudioPassword(wav[..])) == Some(text)
    modifies wav
    ensures recovered == Value(text)
  {
    ghost var d := wav[..];
    ghost var encrypted := encrypt(text, AudioPassword(d));
    ghost var s := addresses(TotalOf(d));
    ghost var embedded := Embedded(SamplesOf(d), s, TextFrame(encrypted));
    EmbeddedHolds(SamplesOf(d), s, TextFrame(encrypted));
    var hidden := EncryptText(wav, text, encrypt, addresses);
    assert wav[..] == SavedWav(d, embedded);
    SamplesFit(d);
    EmbeddedFits(SamplesOf(d), s, TextFrame(encrypted), WavAudio.ByteBound(WavAudio.Width(WavAudio.BitsPerSample(d))));
    SavedWavReopens(d, embedded);
    AudioTextRoundTrip(SamplesOf(d), s, encrypted);
    recovered := DecryptText(wav, addresses, decrypt);
  }

  /**
   * Embedding a file and decoding it along the same spread stream gives
   * its name and bytes back, when the pad is drawn within fuel steps.
   */
  method HideAndRecoverFile(wav: array<byte>, file: array<byte>, filename: seq<char>, addresses: nat -> Stream<int>,
                            cipher: FileCipher.FileCipher, fuel: nat)
    returns (recovered: Outcome<Option<HiddenFile.HiddenFile>>)
    requires WavAudio.ParseError(wav[..]) == None && cipher.Valid() && Plain(filename) && file.Length <= MAX_LIST_LENGTH
    requires FileCipher.PadReady(cipher.pad.Length, cipher.x, file.Length, fuel)
    requires file.Length <= TotalOf(wav[..]) / 8 - ExtraBytes(filename, file.Length)
    requires Spread(addresses(TotalOf(wav[..])), 8 * (file.Length + ExtraBytes(filename, file.Length)), TotalOf(wav[..]))
    modifies wav, cipher
    ensures recovered.Value? && recovered.value.Some?
    ensures recovered.value.value.filename == filename && recovered.value.value.file[..] == old(file[..])
  {
    ghost var d, bytes := wav[..], file[..];
    ghost var s := addresses(TotalOf(d));
    ghost var frame := FileFrame(filename, bytes);
    ghost var embedded := Embedded(SamplesOf(d), s, frame);
    EmbeddedHolds(SamplesOf(d), s, frame);
    var hidden := EncryptFile(wav, file, filename, addresses, cipher, fuel);
    assert wav[..] == SavedWav(d, embedded);
    SamplesFit(d);
    EmbeddedFits(SamplesOf(d), s, frame, WavAudio.ByteBound(WavAudio.Width(WavAudio.BitsPerSample(d))));
    SavedWavReopens(d, embedded);
    assert DecodeFile(AudioTape(SamplesOf(wav[..]), addresses(TotalOf(wav[..])))) == Value((filename, bytes)) by {
      AudioFileRoundTrip(SamplesOf(d), s, filename, bytes);
    }
    assert FileCipher.PadReady(cipher.pad.Length, cipher.x, |bytes|, fuel);
    recovered := DecryptFile(wav, addresses, cipher, fuel);
  }
}
