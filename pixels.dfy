/**
 * Pixels: the per-pixel codec of the image embedders and the map from a
 * unit index to a pixel. One byte is spread over the low 2 bits of red and
 * the low 3 bits of green and blue; everything above those bits is kept.
 */
module Pixels {
  import opened Machine
  import NumberTheory

  /** A System.Drawing.Color as the embedders use it: alpha, red, green, blue. */
  datatype Color = Color(a: byte, r: byte, g: byte, b: byte)

  /** A System.Drawing.Point. */
  datatype Point = Point(x: int, y: int)

  /**
   * EncodePixel(pixel, value): bits 2-0 of value into blue, bits 5-3 into
   * green, bits 7-6 into red (value & 7, (value >> 3) & 7, (value >> 6) & 3
   * are value % 8, value / 8 % 8, value / 64 % 4 with Dafny's Euclidean
   * operators for every int). Color.FromArgb(r, g, b) makes the pixel opaque.
   */
  function EncodePixel(pixel: Color, value: int): (c: Color)
    ensures c.a == 255
    ensures c.r / 4 == pixel.r / 4 && c.g / 8 == pixel.g / 8 && c.b / 8 == pixel.b / 8
    ensures c.r % 4 == value / 64 % 4 && c.g % 8 == value / 8 % 8 && c.b % 8 == value % 8
  {
    Color(255,
      pixel.r - pixel.r % 4 + value / 64 % 4,
      pixel.g - pixel.g % 8 + value / 8 % 8,
      pixel.b - pixel.b % 8 + value % 8)
  }

  /** DecodePixel: blue | green << 3 | red << 6 over the low bits that EncodePixel sets. */
  function DecodePixel(pixel: Color): (v: byte)
    ensures v % 8 == pixel.b % 8 && v / 8 % 8 == pixel.g % 8 && v / 64 == pixel.r % 4
  {
    var v := pixel.b % 8 + 8 * (pixel.g % 8) + 64 * (pixel.r % 4);
    NumberTheory.DivModUnique(v, 8, pixel.g % 8 + 8 * (pixel.r % 4), pixel.b % 8);
    NumberTheory.DivModUnique(pixel.g % 8 + 8 * (pixel.r % 4), 8, pixel.r % 4, pixel.g % 8);
    NumberTheory.DivModUnique(v, 64, pixel.r % 4, pixel.b % 8 + 8 * (pixel.g % 8));
    v
  }

  /** The three bit fields of value % 256 put back together. */
  lemma ByteFields(value: int)
    ensures value % 256 == value % 8 + 8 * (value / 8 % 8) + 64 * (value / 64 % 4)
  {
    var q8 := value / 8;
    var q64 := q8 / 8;
    assert value == 8 * q8 + value % 8;
    assert q8 == 8 * q64 + q8 % 8;
    NumberTheory.DivModUnique(value, 64, q64, value % 8 + 8 * (q8 % 8));
    var q256 := q64 / 4;
    assert q64 == 4 * q256 + q64 % 4;
    NumberTheory.DivModUnique(value, 256, q256, value % 8 + 8 * (q8 % 8) + 64 * (q64 % 4));
  }

  /** Decoding an encoded pixel gives back the byte written: DecodePixel(EncodePixel(p, v)) == v for 0 <= v <= 255. */
  lemma DecodeEncode(pixel: Color, value: int)
    ensures DecodePixel(EncodePixel(pixel, value)) == value % 256
  {
    ByteFields(value);
  }

  /** Encoding twice at the same pixel keeps only the second byte: a later unit overwrites an earlier one. */
  lemma EncodeOverwrites(pixel: Color, first: int, second: int)
    ensures EncodePixel(EncodePixel(pixel, first), second) == EncodePixel(pixel, second)
  {
  }

  /** Encoding the byte a pixel already decodes to changes only its alpha. */
  lemma EncodeDecoded(pixel: Color)
    ensures EncodePixel(pixel, DecodePixel(pixel)) == pixel.(a := 255)
  {
    var v := DecodePixel(pixel);
    assert v / 64 % 4 == pixel.r % 4;
    assert pixel.r - pixel.r % 4 + pixel.r % 4 == pixel.r;
  }

  /** 0xD3 into (0xAC, 0x37, 0x0F) gives (0xAF, 0x32, 0x0B), which decodes to 0xD3. */
  lemma EncodeExample(alpha: byte)
    ensures EncodePixel(Color(alpha, 0xAC, 0x37, 0x0F), 0xD3) == Color(255, 0xAF, 0x32, 0x0B)
    ensures DecodePixel(Color(255, 0xAF, 0x32, 0x0B)) == 0xD3
  {
  }

  /**
   * LinearIndexToPoint(index, width, height): a negative index is negated
   * first (index *= -1, which leaves int.MinValue as it is), then
   * (index % width, index / width) with C#'s truncating operators.
   */
  function LinearIndexToPoint(index: i32, width: int, height: int): (p: Point)
    requires width > 0
    ensures index >= 0 ==> p == Point(index % width, index / width)
  {
    var i := if index < 0 then Int32(-(index as int)) else index as int;
    Point(TruncRem(i, width), TruncDiv(i, width))
  }

  /** The point lies inside a width x height grid. */
  predicate InGrid(p: Point, width: int, height: int)
  {
    0 <= p.x < width && 0 <= p.y < height
  }

  /** Every index below width * height names its own pixel, row by row: y * width + x == index. */
  lemma PointOfIndex(index: i32, width: int, height: int)
    requires width > 0 && 0 <= index < width * height
    ensures InGrid(LinearIndexToPoint(index, width, height), width, height)
    ensures LinearIndexToPoint(index, width, height).y * width + LinearIndexToPoint(index, width, height).x == index
  {
    var q := index / width;
    assert index == q * width + index % width;
    if q >= height {
      NumberTheory.MulMonotone(height, q, width);
      assert false;
    }
  }

  /** Indices from width * height on fall below the last row: GetPixel rejects them. */
  lemma PointPastGrid(index: i32, width: int, height: int)
    requires width > 0 && height >= 0 && index >= width * height
    ensures !InGrid(LinearIndexToPoint(index, width, height), width, height)
  {
    var q := index / width;
    assert index == q * width + index % width;
    if q < height {
      NumberTheory.MulMonotone(q + 1, height, width);
      assert false;
    }
  }

  /** PointInjective read the other way: distinct in-range indices give distinct points. */
  lemma PointsDiffer(i: i32, j: i32, width: int, height: int)
    requires width > 0 && 0 <= i < width * height && 0 <= j < width * height && i != j
    ensures LinearIndexToPoint(i, width, height) != LinearIndexToPoint(j, width, height)
  {
    if LinearIndexToPoint(i, width, height) == LinearIndexToPoint(j, width, height) {
      PointInjective(i, j, width, height);
    }
  }

  /** Two indices in the grid that name the same point are equal. */
  lemma PointInjective(i: i32, j: i32, width: int, height: int)
    requires width > 0 && 0 <= i < width * height && 0 <= j < width * height
    requires LinearIndexToPoint(i, width, height) == LinearIndexToPoint(j, width, height)
    ensures i == j
  {
    PointOfIndex(i, width, height);
    PointOfIndex(j, width, height);
  }

  /** A negative index names the same pixel as its negation. */
  lemma NegativeIndex(index: i32, width: int, height: int)
    requires width > 0 && -INT_MAX <= index < 0
    ensures LinearIndexToPoint(index, width, height) == LinearIndexToPoint(-index, width, height)
  {
  }

  /** int.MinValue stays negative after *= -1 and lands left of column 0. */
  lemma MinValueIndex(width: int, height: int)
    requires width > 0
    ensures !InGrid(LinearIndexToPoint(-TWO_31, width, height), width, height)
  {
    assert Int32(TWO_31) == -TWO_31;
    var i := -TWO_31;
    var q := TruncDiv(i, width);
    assert q == -(TWO_31 / width);
    if TruncRem(i, width) >= 0 {
      assert TWO_31 == (TWO_31 / width) * width + TWO_31 % width;
      assert TruncRem(i, width) == -(TWO_31 % width);
      assert TWO_31 % width == 0;
      assert q < 0;
    }
  }
}
