/**
 * ImageSteganography: the image embedders and decoders. A unit is one
 * pixel, at the point LinearIndexToPoint gives for an address; the
 * "random" variants take their addresses from a seeded generator, which is
 * the stream parameter here, and the linear variants use 0, 1, 2, ...
 *
 * The embedders work on a copy of the image (new Bitmap(image)) and return
 * it; the decoders only read.
 */
module ImageSteganography {
  import opened Machine
  import opened Frames
  import opened Pixels
  import FileCipher
  import HiddenFile
  import SeedRng

  /** The pixels of a bitmap, column by column: pic[x][y]. */
  type Picture = seq<seq<Color>>

  /** The picture has width columns of height pixels. */
  predicate Shaped(pic: Picture, width: int, height: int)
  {
    |pic| == width && forall x :: 0 <= x < width ==> |pic[x]| == height
  }

  /** GetPixel accepts the point LinearIndexToPoint gives for the address. */
  predicate Inside(a: i32, width: int, height: int)
    requires width > 0
  {
    InGrid(LinearIndexToPoint(a, width, height), width, height)
  }

  /** Every address lies inside the grid. */
  predicate AllInside(addrs: seq<i32>, width: int, height: int)
    requires width > 0
  {
    forall k :: 0 <= k < |addrs| ==> Inside(addrs[k], width, height)
  }

  /** The unit at an address: DecodePixel of its pixel, or the exception GetPixel raises. */
  function UnitAt(pic: Picture, width: int, height: int, a: i32): (c: Cell)
    requires width > 0 && Shaped(pic, width, height)
    ensures c.Unit? <==> Inside(a, width, height)
  {
    var p := LinearIndexToPoint(a, width, height);
    if InGrid(p, width, height) then Unit(DecodePixel(pic[p.x][p.y])) else Fault
  }

  /** What a decoder reads from the picture along the stream. */
  function ImageTape(pic: Picture, width: int, height: int, s: Stream<i32>): (t: Tape)
    requires width > 0 && Shaped(pic, width, height)
    ensures |t.cells| == |s.addrs| && t.end == s.end
    ensures forall k :: 0 <= k < |s.addrs| ==> t.cells[k] == UnitAt(pic, width, height, s.addrs[k])
  {
    Tape(seq(|s.addrs|, k requires 0 <= k < |s.addrs| => UnitAt(pic, width, height, s.addrs[k])), s.end)
  }

  /** SetPixel(p, EncodePixel(GetPixel(p), value)) at the point of the address. */
  function Paint(pic: Picture, width: int, height: int, a: i32, value: int): (r: Picture)
    requires width > 0 && Shaped(pic, width, height) && Inside(a, width, height)
    ensures Shaped(r, width, height)
  {
    var p := LinearIndexToPoint(a, width, height);
    pic[p.x := pic[p.x][p.y := EncodePixel(pic[p.x][p.y], value)]]
  }

  /** The picture after one unit is written at each address in turn. */
  function Painted(pic: Picture, width: int, height: int, addrs: seq<i32>, values: seq<int>): (r: Picture)
    requires width > 0 && Shaped(pic, width, height) && |addrs| == |values| && AllInside(addrs, width, height)
    ensures Shaped(r, width, height)
    decreases |addrs|
  {
    if |addrs| == 0 then pic
    else
      var n := |addrs| - 1;
      Paint(Painted(pic, width, height, addrs[..n], values[..n]), width, height, addrs[n], values[n])
  }

  /**
   * The number of units written when n units are written from the i-th
   * address on: the writes stop at the first address outside the grid or
   * when the stream runs out.
   */
  function Reach(addrs: seq<i32>, n: nat, width: int, height: int, i: nat): (k: nat)
    requires width > 0
    ensures i <= n && i <= |addrs| ==> i <= k <= n && k <= |addrs|
    ensures forall j :: i <= j < k && j < |addrs| ==> Inside(addrs[j], width, height)
    ensures i <= k < n && k < |addrs| ==> !Inside(addrs[k], width, height)
    decreases n - i
  {
    if i >= n || i >= |addrs| || !Inside(addrs[i], width, height) then i
    else Reach(addrs, n, width, height, i + 1)
  }

  /** How writing n units along the stream ends: all written, an exception from GetPixel, or the stream's end. */
  function Written(s: Stream<i32>, n: nat, width: int, height: int): Outcome<bool>
    requires width > 0
  {
    var k := Reach(s.addrs, n, width, height, 0);
    if k == n then Value(true) else if k < |s.addrs| then Exception else Stop(s.end)
  }

  /** The picture after the frame is written along the stream, as far as the writes get. */
  function Embedded(pic: Picture, width: int, height: int, s: Stream<i32>, frame: seq<int>): (r: Picture)
    requires width > 0 && Shaped(pic, width, height)
    ensures Shaped(r, width, height)
  {
    var k := Reach(s.addrs, |frame|, width, height, 0);
    assert AllInside(s.addrs[..k], width, height);
    Painted(pic, width, height, s.addrs[..k], frame[..k])
  }

  /** string.Format("{0}x{1}={2}", Width, Height, maxLinear): the password of the image text ciphers. */
  function Password(width: nat, height: nat): seq<char>
  {
    Digits(width) + ['x'] + Digits(height) + ['='] + Digits(width * height)
  }

  /** The linear variants' addresses 0, 1, ..., n - 1; GetPixel throws at n = width * height. */
  function Linear(n: nat): (s: Stream<i32>)
    requires n <= TWO_31
    ensures |s.addrs| == n && s.end == Throws && forall i :: 0 <= i < n ==> s.addrs[i] == i
  {
    Stream(seq(n, i requires 0 <= i < n => i), Throws)
  }

  /** The addresses of the linear text embedder: 0 .. n - 1 for the characters, then c = max(n - 1, 0) for the 0. */
  function LinearTextAddrs(n: nat): (addrs: seq<i32>)
    requires n < TWO_31
    ensures |addrs| == n + 1 && addrs[n] == (if n == 0 then 0 else n - 1)
    ensures forall i :: 0 <= i < n ==> addrs[i] == i
  {
    Linear(n).addrs + [if n == 0 then 0 else n - 1]
  }

  class Bitmap {
    const width: int
    const height: int
    const pixels: array2<Color>

    /** A non-empty bitmap whose pixel count an int holds. */
    ghost predicate Valid()
      reads this
    {
      pixels.Length0 == width && pixels.Length1 == height && width > 0 && height > 0 && width * height <= INT_MAX
    }

    /** The pixels as a picture. */
    function Picture(): (pic: Picture)
      requires Valid()
      reads this, pixels
      ensures Shaped(pic, width, height)
      ensures forall x, y :: 0 <= x < width && 0 <= y < height ==> pic[x][y] == pixels[x, y]
    {
      seq(pixels.Length0, x requires 0 <= x < pixels.Length0 reads pixels =>
        seq(pixels.Length1, y requires 0 <= y < pixels.Length1 reads pixels => pixels[x, y]))
    }

    /** new Bitmap(image): a new bitmap with the same pixels. */
    constructor (image: Bitmap)
      requires image.Valid()
      ensures Valid() && width == image.width && height == image.height && fresh(pixels)
      ensures Picture() == image.Picture()
    {
      width := image.width;
      height := image.height;
      pixels := new Color[image.width, image.height]((x, y) reads image.pixels =>
        if 0 <= x < image.pixels.Length0 && 0 <= y < image.pixels.Length1 then image.pixels[x, y] else Color(0, 0, 0, 0));
      new;
      assert forall x :: 0 <= x < width ==> Picture()[x] == image.Picture()[x];
    }

    /**
     * The write loops of the embedders: for each unit, the next address,
     * GetPixel at its point, EncodePixel of the unit and SetPixel.
     */
    method WriteUnits(s: Stream<i32>, frame: seq<int>) returns (r: Outcome<bool>)
      requires Valid()
      modifies pixels
      ensures Valid()
      ensures r == Written(s, |frame|, width, height)
      ensures Picture() == Embedded(old(Picture()), width, height, s, frame)
    {
      ghost var before := Picture();
      var i := 0;
      while i < |frame|
        invariant 0 <= i <= |frame| && i <= |s.addrs|
        invariant Reach(s.addrs, |frame|, width, height, 0) == Reach(s.addrs, |frame|, width, height, i)
        invariant AllInside(s.addrs[..i], width, height)
        invariant Picture() == Painted(before, width, height, s.addrs[..i], frame[..i])
      {
        if i == |s.addrs| {
          return Stop(s.end);
        }
        var p := LinearIndexToPoint(s.addrs[i], width, height);
        if !(0 <= p.x < width && 0 <= p.y < height) {
          return Exception;
        }
        ghost var prev := Picture();
        var pixel := pixels[p.x, p.y];
        pixels[p.x, p.y] := EncodePixel(pixel, frame[i]);
        assert Picture() == Paint(prev, width, height, s.addrs[i], frame[i]) by {
          assert forall x :: 0 <= x < width ==> Picture()[x] == Paint(prev, width, height, s.addrs[i], frame[i])[x];
        }
        PaintedNext(before, width, height, s.addrs, frame, i);
        i := i + 1;
      }
      return Value(true);
    }
  }

  /** One more write along the addresses: the painted picture grows by one Paint. */
  lemma PaintedNext(pic: Picture, width: int, height: int, addrs: seq<i32>, values: seq<int>, i: nat)
    requires width > 0 && Shaped(pic, width, height) && i < |addrs| && i < |values|
    requires AllInside(addrs[..i], width, height) && Inside(addrs[i], width, height)
    ensures AllInside(addrs[..i + 1], width, height)
    ensures Painted(pic, width, height, addrs[..i + 1], values[..i + 1])
      == Paint(Painted(pic, width, height, addrs[..i], values[..i]), width, height, addrs[i], values[i])
  {
    var front, firsts := addrs[..i + 1], values[..i + 1];
    assert front[..i] == addrs[..i] && firsts[..i] == values[..i];
    assert AllInside(front, width, height) by {
      assert forall k :: 0 <= k < i ==> front[k] == addrs[..i][k];
    }
  }

  // ---------------------------------------------------------------------
  // Embedders and decoders
  // ---------------------------------------------------------------------

  /**
   * The SeedRNG constructor succeeds exactly for these pixel counts: fewer
   * than 9 make the sieve fail, more than the list limit the LCG's list.
   */
  predicate Seedable(count: int)
  {
    9 <= count <= MAX_LIST_LENGTH
  }

  /**
   * new SeedRNG((maxLinear + Width).GetHashCode(), maxLinear, b), built by
   * the embedders before anything else; samples are the draws of the
   * System.Random the seed starts. Only whether it throws matters here:
   * the addresses it yields are the stream the embedders are given.
   */
  method BuildGenerator(count: int, b: bool, samples: nat -> nat, processors: int) returns (built: bool)
    requires 0 < count <= INT_MAX && 1 <= processors <= 0x0FFF_FFFF
    ensures built <==> Seedable(count)
  {
    var generator := SeedRng.CreateSeedRng(samples, count, b, processors);
    built := generator.Success?;
  }

  /**
   * InsertEncryptedTextToImage / EncodeMessage: the generator is built
   * first, and its exception (Seedable fails) ends the call; then the text
   * encrypted with the image's password (encrypt stands for
   * AESEncrypt.EncryptString) is written with its 0 along the stream, only
   * when it is shorter than the pixel count; otherwise the copy is
   * returned unchanged.
   */
  method InsertEncryptedTextToImage(image: Bitmap, text: seq<char>, encrypt: (seq<char>, seq<char>) -> seq<char>, s: Stream<i32>,
                                    samples: nat -> nat, processors: int)
    returns (img: Bitmap, r: Outcome<bool>)
    requires image.Valid() && 1 <= processors <= 0x0FFF_FFFF
    ensures fresh(img) && fresh(img.pixels) && img.Valid() && img.width == image.width && img.height == image.height
    ensures !Seedable(image.width * image.height) ==> r == Exception && img.Picture() == image.Picture()
    ensures Seedable(image.width * image.height) ==>
      var encrypted := encrypt(text, Password(image.width, image.height));
      if |encrypted| < image.width * image.height then
        && r == Written(s, |encrypted| + 1, image.width, image.height)
        && img.Picture() == Embedded(image.Picture(), image.width, image.height, s, TextFrame(encrypted))
      else
        r == Value(false) && img.Picture() == image.Picture()
  {
    img := new Bitmap(image);
    var maxLinear := img.width * img.height;
    var built := BuildGenerator(maxLinear, false, samples, processors);
    if !built {
      return img, Exception;
    }
    var encrypted := encrypt(text, Password(img.width, img.height));
    if |encrypted| < maxLinear {
      r := img.WriteUnits(s, TextFrame(encrypted));
    } else {
      r := Value(false);
    }
  }

  /**
   * InsertEncryptedTextToImageLinear / EncodeMessageLinear: the characters
   * at 0 .. n - 1, then the 0 at c, the index of the last character (0 for
   * an empty text), so the 0 replaces the last character.
   */
  method InsertEncryptedTextToImageLinear(image: Bitmap, text: seq<char>, encrypt: (seq<char>, seq<char>) -> seq<char>)
    returns (img: Bitmap, r: Outcome<bool>)
    requires image.Valid()
    ensures fresh(img) && fresh(img.pixels) && img.Valid() && img.width == image.width && img.height == image.height
    ensures var encrypted := encrypt(text, Password(image.width, image.height));
      if |encrypted| < image.width * image.height then
        && r == Value(true)
        && AllInside(LinearTextAddrs(|encrypted|), image.width, image.height)
        && img.Picture() == Painted(image.Picture(), image.width, image.height, LinearTextAddrs(|encrypted|), TextFrame(encrypted))
      else
        r == Value(false) && img.Picture() == image.Picture()
  {
    img := new Bitmap(image);
    var maxLinear := img.width * img.height;
    var encrypted := encrypt(text, Password(img.width, img.height));
    if |encrypted| < maxLinear {
      var addrs := LinearTextAddrs(|encrypted|);
      LinearInside(|encrypted| + 1, addrs, img.width, img.height);
      EmbeddedAll(img.Picture(), img.width, img.height, Stream(addrs, Throws), TextFrame(encrypted));
      r := img.WriteUnits(Stream(addrs, Throws), TextFrame(encrypted));
    } else {
      r := Value(false);
    }
  }

  /** Addresses below the pixel count all lie inside the grid. */
  lemma LinearInside(n: nat, addrs: seq<i32>, width: int, height: int)
    requires width > 0 && |addrs| == n && forall i :: 0 <= i < n ==> 0 <= addrs[i] < width * height
    ensures AllInside(addrs, width, height)
  {
    forall i | 0 <= i < n
      ensures Inside(addrs[i], width, height)
    {
      PointOfIndex(addrs[i], width, height);
    }
  }

  /** Along addresses that all lie inside, the whole frame is painted. */
  lemma EmbeddedAll(pic: Picture, width: int, height: int, s: Stream<i32>, frame: seq<int>)
    requires width > 0 && Shaped(pic, width, height) && |s.addrs| == |frame| && AllInside(s.addrs, width, height)
    ensures Written(s, |frame|, width, height) == Value(true)
    ensures Embedded(pic, width, height, s, frame) == Painted(pic, width, height, s.addrs, frame)
  {
    assert s.addrs[..|frame|] == s.addrs && frame[..|frame|] == frame;
    ReachAll(s.addrs, |frame|, width, height);
  }

  /** When every address is inside, all n units are written. */
  lemma {:induction false} ReachAll(addrs: seq<i32>, n: nat, width: int, height: int)
    requires width > 0 && n <= |addrs| && AllInside(addrs[..n], width, height)
    ensures Reach(addrs, n, width, height, 0) == n
  {
    var i := n;
    while i > 0
      invariant 0 <= i <= n && Reach(addrs, n, width, height, i) == n
    {
      assert addrs[..n][i - 1] == addrs[i - 1];
      i := i - 1;
    }
  }

  /**
   * GetDecryptedTextFromImage: the do-while over the stream until a 0
   * unit, outside any try, then DecryptString with the image's password,
   * whose exception gives the empty string.
   */
  method GetDecryptedTextFromImage(image: Bitmap, s: Stream<i32>, decrypt: (seq<char>, seq<char>) -> Option<seq<char>>)
    returns (r: Outcome<seq<char>>)
    requires image.Valid()
    ensures r == DecryptOrEmpty(DecodeText(ImageTape(image.Picture(), image.width, image.height, s), 0), decrypt, Password(image.width, image.height))
  {
    var t := ImageTape(image.Picture(), image.width, image.height, s);
    var read := ReadUntilLoop(t, 0, 0);
    var text := match read case Value((units, _)) => Value(Chars(units)) case Exception => Exception case Diverges => Diverges;
    r := DecryptOrEmpty(text, decrypt, Password(image.width, image.height));
  }

  /** GetDecryptedTextFromImageLinear: the same over 0, 1, 2, ..., until a 255 unit. */
  method GetDecryptedTextFromImageLinear(image: Bitmap, decrypt: (seq<char>, seq<char>) -> Option<seq<char>>)
    returns (r: Outcome<seq<char>>)
    requires image.Valid()
    ensures r == DecryptOrEmpty(DecodeText(ImageTape(image.Picture(), image.width, image.height, Linear(image.width * image.height)), 255),
      decrypt, Password(image.width, image.height))
  {
    var t := ImageTape(image.Picture(), image.width, image.height, Linear(image.width * image.height));
    var read := ReadUntilLoop(t, 0, 255);
    var text := match read case Value((units, _)) => Value(Chars(units)) case Exception => Exception case Diverges => Diverges;
    r := DecryptOrEmpty(text, decrypt, Password(image.width, image.height));
  }

  /** (maxLinear + Width).GetHashCode(): the file cipher's key, an unchecked int sum. */
  function FileKey(width: int, height: int): i32
  {
    Int32(width * height + width)
  }

  /**
   * InsertFileToImage / EncodeFileWithColor (b false) and
   * EncodeFileWithColor2 (b true, whose generator otherwise differs only
   * in the stream): the generator is built first, and its exception
   * (Seedable fails) ends the call before the file is touched; then
   * EmbedFile.
   */
  method InsertFileToImage(image: Bitmap, file: array<byte>, filename: seq<char>, s: Stream<i32>,
                           cipher: FileCipher.FileCipher, fuel: nat, b: bool, samples: nat -> nat, processors: int)
    returns (img: Bitmap, r: Outcome<bool>)
    requires image.Valid() && cipher.Valid() && 1 <= processors <= 0x0FFF_FFFF
    modifies cipher
    ensures fresh(img) && fresh(img.pixels) && img.Valid() && img.width == image.width && img.height == image.height
    ensures cipher.Valid()
    ensures !Seedable(image.width * image.height) ==>
      r == Exception && img.Picture() == image.Picture() && unchanged(cipher) && unchanged(cipher.pad)
    ensures Seedable(image.width * image.height) ==> cipher.seed == FileKey(image.width, image.height)
    ensures Seedable(image.width * image.height) && !FileCipher.PadReady(old(cipher.pad.Length), old(cipher.x), file.Length, fuel) ==>
      r == Diverges
    ensures Seedable(image.width * image.height) && FileCipher.PadReady(old(cipher.pad.Length), old(cipher.x), file.Length, fuel) ==>
      && file.Length <= cipher.pad.Length
      && if file.Length < image.width * image.height - ExtraBytes(filename, file.Length) then
           && r == Written(s, file.Length + ExtraBytes(filename, file.Length), image.width, image.height)
           && img.Picture() == Embedded(image.Picture(), image.width, image.height, s, FileFrame(filename, file[..]))
         else
           r == Value(false) && img.Picture() == image.Picture()
  {
    var built := BuildGenerator(image.width * image.height, b, samples, processors);
    if !built {
      img := new Bitmap(image);
      return img, Exception;
    }
    img, r := EmbedFile(image, file, filename, s, cipher, fuel);
  }

  /**
   * The part of the file embedders after the generator: the file is
   * ciphered first, then written as a file frame only when file.Length is
   * below the pixel count less extraBytes. Diverges stands for a pad loop
   * that does not finish within fuel steps.
   */
  method EmbedFile(image: Bitmap, file: array<byte>, filename: seq<char>, s: Stream<i32>,
                   cipher: FileCipher.FileCipher, fuel: nat)
    returns (img: Bitmap, r: Outcome<bool>)
    requires image.Valid() && cipher.Valid()
    modifies cipher
    ensures fresh(img) && fresh(img.pixels) && img.Valid() && img.width == image.width && img.height == image.height
    ensures cipher.Valid() && cipher.seed == FileKey(image.width, image.height)
    ensures !FileCipher.PadReady(old(cipher.pad.Length), old(cipher.x), file.Length, fuel) ==> r == Diverges
    ensures FileCipher.PadReady(old(cipher.pad.Length), old(cipher.x), file.Length, fuel) ==> file.Length <= cipher.pad.Length
    ensures FileCipher.PadReady(old(cipher.pad.Length), old(cipher.x), file.Length, fuel) ==>
      if file.Length < image.width * image.height - ExtraBytes(filename, file.Length) then
        && r == Written(s, file.Length + ExtraBytes(filename, file.Length), image.width, image.height)
        && img.Picture() == Embedded(image.Picture(), image.width, image.height, s, FileFrame(filename, file[..]))
      else
        r == Value(false) && img.Picture() == image.Picture()
  {
    img := new Bitmap(image);
    var maxLinear := img.width * img.height;
    var extraBytes := ExtraBytes(filename, file.Length);
    var f := new HiddenFile.HiddenFile(file, filename);
    var done := f.CipherFile(FileKey(img.width, img.height), cipher, fuel);
    if !done {
      return img, Diverges;
    }
    if file.Length < maxLinear - extraBytes {
      r := img.WriteUnits(s, FileFrame(filename, f.file[..]));
    } else {
      r := Value(false);
    }
  }

  /** InsertFileToImageLinear / EncodeFileWithColorLinear: the same frame at 0, 1, 2, ... */
  method InsertFileToImageLinear(image: Bitmap, file: array<byte>, filename: seq<char>, cipher: FileCipher.FileCipher, fuel: nat)
    returns (img: Bitmap, r: Outcome<bool>)
    requires image.Valid() && cipher.Valid()
    modifies cipher
    ensures fresh(img) && fresh(img.pixels) && img.Valid() && img.width == image.width && img.height == image.height
    ensures cipher.Valid() && cipher.seed == FileKey(image.width, image.height)
    ensures !FileCipher.PadReady(old(cipher.pad.Length), old(cipher.x), file.Length, fuel) ==> r == Diverges
    ensures FileCipher.PadReady(old(cipher.pad.Length), old(cipher.x), file.Length, fuel) ==> file.Length <= cipher.pad.Length
    ensures FileCipher.PadReady(old(cipher.pad.Length), old(cipher.x), file.Length, fuel) ==>
      if file.Length < image.width * image.height - ExtraBytes(filename, file.Length) then
        && r == Value(true)
        && img.Picture() == Embedded(image.Picture(), image.width, image.height, Linear(image.width * image.height), FileFrame(filename, file[..]))
      else
        r == Value(false) && img.Picture() == image.Picture()
  {
    var linear := Linear(image.width * image.height);
    ghost var frame := FileFrame(filename, file[..]);
    if |frame| < image.width * image.height {
      LinearSpread(image.width, image.height, |frame|);
      SpreadWritten(linear, |frame|, image.width, image.height);
    }
    img, r := EmbedFile(image, file, filename, linear, cipher, fuel);
  }

  /**
   * GetFileFromImage (and GetFileFromImage2): the file frame read along
   * the stream, then new HiddenFile and CipherFile with the same key;
   * every exception is caught and gives null (None).
   */
  method GetFileFromImage(image: Bitmap, s: Stream<i32>, cipher: FileCipher.FileCipher, fuel: nat)
    returns (r: Outcome<Option<HiddenFile.HiddenFile>>)
    requires image.Valid() && cipher.Valid()
    modifies cipher
    ensures cipher.Valid()
    ensures var decoded := DecodeFile(ImageTape(old(image.Picture()), image.width, image.height, s));
      && (decoded.Exception? ==> r == Value(None))
      && (decoded.Diverges? ==> r == Diverges)
      && (decoded.Value? && !FileCipher.PadReady(old(cipher.pad.Length), old(cipher.x), |decoded.value.1|, fuel) ==> r == Diverges)
      && (decoded.Value? && FileCipher.PadReady(old(cipher.pad.Length), old(cipher.x), |decoded.value.1|, fuel) ==>
            && r.Value? && r.value.Some? && fresh(r.value.value) && r.value.value.Valid()
            && r.value.value.filename == decoded.value.0 && r.value.value.file[..] == decoded.value.1
            && cipher.seed == FileKey(image.width, image.height))
  {
    var t := ImageTape(image.Picture(), image.width, image.height, s);
    r := HiddenFile.RecoverFile(t, FileKey(image.width, image.height), cipher, fuel);
  }

  /** GetFileFromImageLinear: the same over 0, 1, 2, ... */
  method GetFileFromImageLinear(image: Bitmap, cipher: FileCipher.FileCipher, fuel: nat)
    returns (r: Outcome<Option<HiddenFile.HiddenFile>>)
    requires image.Valid() && cipher.Valid()
    modifies cipher
    ensures cipher.Valid()
    ensures var decoded := DecodeFile(ImageTape(old(image.Picture()), image.width, image.height, Linear(image.width * image.height)));
      && (decoded.Exception? ==> r == Value(None))
      && (decoded.Diverges? ==> r == Diverges)
      && (decoded.Value? && !FileCipher.PadReady(old(cipher.pad.Length), old(cipher.x), |decoded.value.1|, fuel) ==> r == Diverges)
      && (decoded.Value? && FileCipher.PadReady(old(cipher.pad.Length), old(cipher.x), |decoded.value.1|, fuel) ==>
            && r.Value? && r.value.Some? && fresh(r.value.value) && r.value.value.Valid()
            && r.value.value.filename == decoded.value.0 && r.value.value.file[..] == decoded.value.1
            && cipher.seed == FileKey(image.width, image.height))
  {
    var t := ImageTape(image.Picture(), image.width, image.height, Linear(image.width * image.height));
    r := HiddenFile.RecoverFile(t, FileKey(image.width, image.height), cipher, fuel);
  }

  // ---------------------------------------------------------------------
  // What the decoders read back
  // ---------------------------------------------------------------------

  /** The stream's first n addresses are distinct pixel indices, as SeedRNG's draws are. */
  predicate Spread(s: Stream<i32>, n: nat, width: int, height: int)
  {
    && n <= |s.addrs|
    && (forall k :: 0 <= k < n ==> 0 <= s.addrs[k] < width * height)
    && (forall i, j :: 0 <= i < j < n ==> s.addrs[i] != s.addrs[j])
  }

  /** The linear addresses are spread over the whole grid. */
  lemma LinearSpread(width: int, height: int, n: nat)
    requires width > 0 && n <= width * height <= INT_MAX
    ensures Spread(Linear(width * height), n, width, height)
  {
  }

  /** Along a spread stream every one of the n writes lands inside the image. */
  lemma SpreadWritten(s: Stream<i32>, n: nat, width: int, height: int)
    requires width > 0 && Spread(s, n, width, height)
    ensures AllInside(s.addrs[..n], width, height)
    ensures Reach(s.addrs, n, width, height, 0) == n
    ensures Written(s, n, width, height) == Value(true)
  {
    LinearInside(n, s.addrs[..n], width, height);
    ReachAll(s.addrs, n, width, height);
  }

  /** A unit written at an address is read back from it when no later write hits the same pixel. */
  lemma {:induction false} PaintedAt(pic: Picture, width: int, height: int, addrs: seq<i32>, values: seq<int>, k: nat)
    requires width > 0 && Shaped(pic, width, height) && |addrs| == |values| && AllInside(addrs, width, height)
    requires k < |addrs|
    requires forall j :: k < j < |addrs| ==> LinearIndexToPoint(addrs[j], width, height) != LinearIndexToPoint(addrs[k], width, height)
    ensures UnitAt(Painted(pic, width, height, addrs, values), width, height, addrs[k]) == Unit(values[k] % 256)
    decreases |addrs|
  {
    var n := |addrs| - 1;
    var front, firsts := addrs[..n], values[..n];
    assert AllInside(front, width, height) by {
      assert forall j :: 0 <= j < n ==> front[j] == addrs[j];
    }
    var prev := Painted(pic, width, height, front, firsts);
    var p := LinearIndexToPoint(addrs[k], width, height);
    if k == n {
      DecodeEncode(prev[p.x][p.y], values[k]);
    } else {
      assert forall j :: k < j < n ==> front[j] == addrs[j];
      PaintedAt(pic, width, height, front, firsts, k);
      assert Paint(prev, width, height, addrs[n], values[n])[p.x][p.y] == prev[p.x][p.y];
    }
  }

  /**
   * Along a spread stream, every unit of the frame is written, and the
   * decoders' tape of the result holds the frame.
   */
  lemma EmbeddedHolds(pic: Picture, width: int, height: int, s: Stream<i32>, frame: seq<int>)
    requires width > 0 && Shaped(pic, width, height) && Spread(s, |frame|, width, height)
    ensures Written(s, |frame|, width, height) == Value(true)
    ensures Holds(ImageTape(Embedded(pic, width, height, s, frame), width, height, s), 0, frame)
  {
    var n := |frame|;
    var addrs := s.addrs[..n];
    SpreadWritten(s, n, width, height);
    assert frame[..n] == frame;
    var painted := Painted(pic, width, height, addrs, frame);
    forall k | 0 <= k < n
      ensures UnitAt(painted, width, height, s.addrs[k]) == Unit(frame[k] % 256)
    {
      forall j | k < j < n
        ensures LinearIndexToPoint(addrs[j], width, height) != LinearIndexToPoint(addrs[k], width, height)
      {
        if LinearIndexToPoint(addrs[j], width, height) == LinearIndexToPoint(addrs[k], width, height) {
          PointInjective(addrs[j], addrs[k], width, height);
        }
      }
      PaintedAt(pic, width, height, addrs, frame, k);
    }
  }

  /** Text round trip over a spread stream: the decoder reads back the encrypted text the embedder wrote. */
  lemma ImageTextRoundTrip(pic: Picture, width: int, height: int, s: Stream<i32>, encrypted: seq<char>)
    requires width > 0 && Shaped(pic, width, height) && Plain(encrypted) && Spread(s, |encrypted| + 1, width, height)
    ensures DecodeText(ImageTape(Embedded(pic, width, height, s, TextFrame(encrypted)), width, height, s), 0) == Value(encrypted)
  {
    EmbeddedHolds(pic, width, height, s, TextFrame(encrypted));
    TextRoundTrip(ImageTape(Embedded(pic, width, height, s, TextFrame(encrypted)), width, height, s), encrypted);
  }

  /** File round trip over a spread stream: the decoder reads back the name and the bytes the embedder wrote. */
  lemma ImageFileRoundTrip(pic: Picture, width: int, height: int, s: Stream<i32>, name: seq<char>, bytes: seq<byte>)
    requires width > 0 && Shaped(pic, width, height) && Plain(name) && |bytes| <= MAX_LIST_LENGTH
    requires Spread(s, |FileFrame(name, bytes)|, width, height)
    ensures DecodeFile(ImageTape(Embedded(pic, width, height, s, FileFrame(name, bytes)), width, height, s)) == Value((name, bytes))
  {
    EmbeddedHolds(pic, width, height, s, FileFrame(name, bytes));
    FileRoundTrip(ImageTape(Embedded(pic, width, height, s, FileFrame(name, bytes)), width, height, s), name, bytes);
  }

  /**
   * The linear text embedder leaves its text's last character replaced by
   * 0, and the linear decoder stops at 255: for a non-empty text of
   * characters 1 to 254, what it reads is not the text.
   */
  lemma ImageLinearTextLost(pic: Picture, width: int, height: int, encrypted: seq<char>)
    requires width > 0 && Shaped(pic, width, height) && width * height <= INT_MAX
    requires 0 < |encrypted| < width * height && Plain(encrypted) && forall i :: 0 <= i < |encrypted| ==> encrypted[i] as int != 255
    ensures AllInside(LinearTextAddrs(|encrypted|), width, height)
    ensures DecodeText(ImageTape(Painted(pic, width, height, LinearTextAddrs(|encrypted|), TextFrame(encrypted)),
      width, height, Linear(width * height)), 255) != Value(encrypted)
  {
    var n := |encrypted|;
    var addrs := LinearTextAddrs(n);
    LinearInside(n + 1, addrs, width, height);
    var frame := TextFrame(encrypted);
    var painted := Painted(pic, width, height, addrs, frame);
    var t := ImageTape(painted, width, height, Linear(width * height));
    forall k | 0 <= k < n
      ensures t.cells[k] == Unit(LinearTextFrame(encrypted)[k] % 256)
    {
      var j := if k == n - 1 then n else k;
      forall i | j < i < n + 1
        ensures LinearIndexToPoint(addrs[i], width, height) != LinearIndexToPoint(addrs[j], width, height)
      {
        PointsDiffer(addrs[i], addrs[j], width, height);
      }
      PaintedAt(pic, width, height, addrs, frame, j);
    }
    LinearTextLost(t, encrypted);
  }

  /** Capacity example: with 100 pixels and the name "a.txt" (extraBytes 9), 80 bytes fit and 95 do not. */
  lemma FileCapacityExample()
    ensures ExtraBytes("a.txt", 80) == 9 && 80 < 100 - ExtraBytes("a.txt", 80)
    ensures ExtraBytes("a.txt", 95) == 9 && !(95 < 100 - ExtraBytes("a.txt", 95))
  {
    assert Digits(80) == ['8', '0'];
    assert Digits(95) == ['9', '5'];
  }

  // ---------------------------------------------------------------------
  // Hiding and recovering, end to end
  // ---------------------------------------------------------------------

  /**
   * Embedding a text and decoding it along the same spread stream gives
   * the text back, when decrypt inverts encrypt and the cipher text is
   * plain (Base64 is ASCII, without 0).
   */
  method HideAndRecoverText(image: Bitmap, text: seq<char>, encrypt: (seq<char>, seq<char>) -> seq<char>,
                            decrypt: (seq<char>, seq<char>) -> Option<seq<char>>, s: Stream<i32>,
                            samples: nat -> nat, processors: int)
    returns (recovered: Outcome<seq<char>>)
    requires image.Valid() && 1 <= processors <= 0x0FFF_FFFF
    requires Plain(encrypt(text, Password(image.width, image.height)))
    requires |encrypt(text, Password(image.width, image.height))| < image.width * image.height
    requires Spread(s, |encrypt(text, Password(image.width, image.height))| + 1, image.width, image.height)
    requires decrypt(encrypt(text, Password(image.width, image.height)), Password(image.width, image.height)) == Some(text)
    ensures Seedable(image.width * image.height) ==> recovered == Value(text)
    ensures !Seedable(image.width * image.height) ==> recovered == Exception
  {
    SpreadWritten(s, |encrypt(text, Password(image.width, image.height))| + 1, image.width, image.height);
    var img, written := InsertEncryptedTextToImage(image, text, encrypt, s, samples, processors);
    if written == Exception {
      return Exception;
    }
    ImageTextRoundTrip(image.Picture(), image.width, image.height, s, encrypt(text, Password(image.width, image.height)));
    recovered := GetDecryptedTextFromImage(img, s, decrypt);
  }

  /**
   * Embedding a file and decoding it along the same spread stream gives
   * its name and bytes back, when the pad is drawn within fuel steps.
   */
  method HideAndRecoverFile(image: Bitmap, file: array<byte>, filename: seq<char>, s: Stream<i32>,
                            cipher: FileCipher.FileCipher, fuel: nat, b: bool, samples: nat -> nat, processors: int)
    returns (recovered: Outcome<Option<HiddenFile.HiddenFile>>)
    requires image.Valid() && cipher.Valid() && Plain(filename) && file.Length <= MAX_LIST_LENGTH
    requires 1 <= processors <= 0x0FFF_FFFF
    requires FileCipher.PadReady(cipher.pad.Length, cipher.x, file.Length, fuel)
    requires file.Length < image.width * image.height - ExtraBytes(filename, file.Length)
    requires Spread(s, file.Length + ExtraBytes(filename, file.Length), image.width, image.height)
    modifies cipher
    ensures !Seedable(image.width * image.height) ==> recovered == Exception
    ensures Seedable(image.width * image.height) ==> recovered.Value? && recovered.value.Some?
    ensures Seedable(image.width * image.height) ==>
      recovered.value.value.filename == filename && recovered.value.value.file[..] == file[..]
  {
    ghost var w, h, pic, bytes := image.width, image.height, image.Picture(), file[..];
    SpreadWritten(s, file.Length + ExtraBytes(filename, file.Length), w, h);
    var img, written := InsertFileToImage(image, file, filename, s, cipher, fuel, b, samples, processors);
    if written == Exception {
      return Exception;
    }
    assert DecodeFile(ImageTape(img.Picture(), w, h, s)) == Value((filename, bytes)) by {
      assert img.Picture() == Embedded(pic, w, h, s, FileFrame(filename, bytes));
      ImageFileRoundTrip(pic, w, h, s, filename, bytes);
    }
    assert FileCipher.PadReady(cipher.pad.Length, cipher.x, |bytes|, fuel);
    recovered := GetFileFromImage(img, s, cipher, fuel);
  }

  /** The same for the linear file embedder and decoder. */
  method HideAndRecoverFileLinear(image: Bitmap, file: array<byte>, filename: seq<char>, cipher: FileCipher.FileCipher, fuel: nat)
    returns (recovered: Outcome<Option<HiddenFile.HiddenFile>>)
    requires image.Valid() && cipher.Valid() && Plain(filename) && file.Length <= MAX_LIST_LENGTH
    requires FileCipher.PadReady(cipher.pad.Length, cipher.x, file.Length, fuel)
    requires file.Length < image.width * image.height - ExtraBytes(filename, file.Length)
    modifies cipher
    ensures recovered.Value? && recovered.value.Some?
    ensures recovered.value.value.filename == filename && recovered.value.value.file[..] == file[..]
  {
    ghost var w, h, pic, bytes := image.width, image.height, image.Picture(), file[..];
    var img, written := InsertFileToImageLinear(image, file, filename, cipher, fuel);
    ghost var linear := Linear(w * h);
    assert DecodeFile(ImageTape(img.Picture(), w, h, linear)) == Value((filename, bytes)) by {
      assert img.Picture() == Embedded(pic, w, h, linear, FileFrame(filename, bytes));
      LinearSpread(w, h, |FileFrame(filename, bytes)|);
      ImageFileRoundTrip(pic, w, h, linear, filename, bytes);
    }
    assert FileCipher.PadReady(cipher.pad.Length, cipher.x, |bytes|, fuel);
    recovered := GetFileFromImageLinear(img, cipher, fuel);
  }
}
