/**
 * RGBA byte buffers as the browser's `ImageData` holds them: four bytes per
 * pixel, rows of `width` pixels one after another, alpha in the fourth byte.
 */
module Raster {

  type Byte = x: int | 0 <= x < 256

  datatype Image = Image(width: nat, height: nat, data: seq<Byte>) {
    predicate Valid() { |data| == 4 * width * height }
  }

  /** Index of the first (red) byte of pixel (x, y) in a buffer `w` pixels wide. */
  function PixelIndex(w: nat, x: int, y: int): int
  {
    4 * (y * w + x)
  }

  /** Pixel (x, y) of a w-by-h buffer has all four of its bytes inside the buffer. */
  lemma PixelInBounds(w: nat, h: nat, x: int, y: int)
    requires 0 <= x < w && 0 <= y < h
    ensures 0 <= PixelIndex(w, x, y)
    ensures PixelIndex(w, x, y) + 3 < 4 * w * h
  {
    assert h * w == y * w + (h - y) * w;
    MulAtLeast(h - y, w);
    assert 4 * w * h == 4 * (h * w);
  }

  /** Alpha byte of pixel (x, y). */
  function Alpha(img: Image, x: int, y: int): Byte
    requires img.Valid() && 0 <= x < img.width && 0 <= y < img.height
  {
    PixelInBounds(img.width, img.height, x, y);
    img.data[PixelIndex(img.width, x, y) + 3]
  }

  /** Row and column of the pixel that byte `i` belongs to. */
  function RowOf(i: int, w: nat): int
    requires 0 <= i && 0 < w
  {
    i / 4 / w
  }

  function ColumnOf(i: int, w: nat): int
    requires 0 <= i && 0 < w
  {
    i / 4 - RowOf(i, w) * w
  }

  /**
   * Byte i lies in pixel (ColumnOf, RowOf); the column is inside the row, and
   * the bytes of pixel (x, y) are exactly those whose row and column are y and x.
   */
  lemma RowColumn(i: int, w: nat, x: int, y: int)
    requires 0 <= i && 0 < w
    ensures 0 <= ColumnOf(i, w) < w && 0 <= RowOf(i, w)
    ensures i / 4 == RowOf(i, w) * w + ColumnOf(i, w)
    ensures 0 <= x < w ==>
      ((ColumnOf(i, w) == x && RowOf(i, w) == y) <==>
       PixelIndex(w, x, y) <= i < PixelIndex(w, x, y) + 4)
  {
    var k := i / 4;
    assert k == w * (k / w) + k % w;
    if 0 <= x < w {
      if PixelIndex(w, x, y) <= i < PixelIndex(w, x, y) + 4 {
        assert k == y * w + x;
        DivUnique(k, w, y, x);
      }
    }
  }

  /** The four bytes of one pixel share its row and column. */
  lemma SamePixel(i: int, k: int, w: nat)
    requires 0 <= i && i % 4 == 0 && i <= k < i + 4 && 0 < w
    ensures k / 4 == i / 4 && RowOf(k, w) == RowOf(i, w) && ColumnOf(k, w) == ColumnOf(i, w)
  {
    DivUnique(k, 4, i / 4, k - i);
  }

  lemma DivUnique(k: int, w: int, q: int, r: int)
    requires 0 < w && 0 <= r < w && k == q * w + r
    ensures k / w == q && k % w == r
  {
    var q', r' := k / w, k % w;
    assert k == q' * w + r';
    assert (q - q') * w == r' - r by {
      assert (q - q') * w == q * w - q' * w;
    }
    if q > q' {
      MulAtLeast(q - q', w);
    } else if q < q' {
      MulAtLeast(q' - q, w);
    }
  }

  lemma MulAtLeast(d: int, w: int)
    requires 1 <= d && 0 < w
    ensures d * w >= w
  {
    assert d * w == (d - 1) * w + w;
    assert (d - 1) * w >= 0;
  }
}
