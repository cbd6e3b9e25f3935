/**
 * The CSG drawing canvas: a round brush paints opaque white into the RGBA
 * buffer, the quad-tree rectangles of the painted mask are redrawn (black
 * inside, grey outline), and each rectangle becomes a box primitive in
 * normalised device coordinates for the WebGL view.
 */
module CsgCanvas {
  import opened Wrappers
  import opened Raster
  import opened QuadTree

  /** Brush radius in pixels. */
  const BrushRadius: real := 30.0

  const Black: seq<Byte> := [0, 0, 0, 255]
  const Grey: seq<Byte> := [128, 128, 128, 255]

  /** A box primitive: centre (x, y, z), half-extents scaled as the source does, and its type tag. */
  datatype Box = Box(x: real, y: real, z: real, w: real, h: real, kind: string)

  /** `Math.ceil` on a real. */
  function Ceil(v: real): (c: int)
    ensures v <= c as real < v + 1.0
  {
    -((-v).Floor)
  }

  /** Squared distance from (x, y) to pixel (px, py). */
  function SquaredDistance(x: real, y: real, px: int, py: int): real
  {
    (px as real - x) * (px as real - x) + (py as real - y) * (py as real - y)
  }

  /** Pixel (px, py) lies strictly inside the brush disc centred on (x, y). */
  predicate InBrush(x: real, y: real, px: int, py: int)
  {
    SquaredDistance(x, y, px, py) < BrushRadius * BrushRadius
  }

  /** First byte the brush scans: four times the floored index of the disc's bounding-box corner, at least 0. */
  function ScanStart(x: real, y: real, w: nat): int
  {
    var lo := 4 * ((y - BrushRadius) * w as real + (x - BrushRadius)).Floor;
    if lo < 0 then 0 else lo
  }

  /** End (exclusive) of the scanned bytes, at most the buffer length. */
  function ScanEnd(x: real, y: real, w: nat, len: int): int
  {
    var hi := 4 * Ceil((y + BrushRadius) * w as real + (x + BrushRadius));
    if len < hi then len else hi
  }

  /** A coordinate difference whose square is below 30^2 is below 30 in size. */
  lemma SquareBelow(d: real, e: real)
    requires d * d + e * e < BrushRadius * BrushRadius
    ensures -BrushRadius < d < BrushRadius
  {
  }

  lemma ScaledSum(a: real, b: real, w: real, c: real, d: real)
    requires a < b && w > 0.0 && c < d
    ensures a * w + c < b * w + d
  {
    assert a * w < b * w;
  }

  lemma IntToRealMul(a: int, b: int)
    ensures (a * b) as real == a as real * b as real
  {
  }

  /** The pixel's cell index (py * w + px) sits strictly between the two window ends before rounding. */
  lemma WindowBounds(x: real, y: real, w: nat, px: int, py: int)
    requires 0 < w
    requires -BrushRadius < px as real - x < BrushRadius && -BrushRadius < py as real - y < BrushRadius
    ensures (y - BrushRadius) * w as real + (x - BrushRadius) < (py * w + px) as real
    ensures (py * w + px) as real < (y + BrushRadius) * w as real + (x + BrushRadius)
  {
    IntToRealMul(py, w);
    ScaledSum(y - BrushRadius, py as real, w as real, x - BrushRadius, px as real);
    ScaledSum(py as real, y + BrushRadius, w as real, px as real, x + BrushRadius);
  }

  /**
   * The scanned byte range contains every byte of every image pixel inside
   * the disc: the window is wide enough, so the brush paints the full disc.
   */
  lemma WindowCoversBrush(x: real, y: real, w: nat, h: nat, k: int)
    requires 0 < w && 0 <= k < 4 * w * h
    requires InBrush(x, y, ColumnOf(k, w), RowOf(k, w))
    ensures ScanStart(x, y, w) <= k < ScanEnd(x, y, w, 4 * w * h)
  {
    var px, py := ColumnOf(k, w), RowOf(k, w);
    RowColumn(k, w, px, py);
    SquareBelow(px as real - x, py as real - y);
    SquareBelow(py as real - y, px as real - x);
    var c := k / 4;
    assert c == py * w + px;
    WindowBounds(x, y, w, px, py);
    var loArg := (y - BrushRadius) * w as real + (x - BrushRadius);
    var hiArg := (y + BrushRadius) * w as real + (x + BrushRadius);
    assert loArg < c as real < hiArg;
    var lo, hi := loArg.Floor, Ceil(hiArg);
    assert lo < c + 1 && c < hi;
    assert 4 * c <= k < 4 * c + 4;
  }

  /** Both ends of the scan fall on pixel boundaries, and an empty-width buffer is scanned nowhere. */
  lemma ScanAligned(x: real, y: real, w: nat, h: nat)
    ensures ScanStart(x, y, w) % 4 == 0 && ScanEnd(x, y, w, 4 * w * h) % 4 == 0
    ensures w == 0 ==> ScanEnd(x, y, w, 4 * w * h) <= 0
  {
    assert 4 * w * h == 4 * (w * h);
  }

  /** The scan of `paint` reaches every byte of every pixel inside the brush. */
  lemma BrushWithinScan(x: real, y: real, w: nat, h: nat)
    ensures forall k :: 0 < w && 0 <= k < 4 * w * h && InBrush(x, y, ColumnOf(k, w), RowOf(k, w)) ==>
      ScanStart(x, y, w) <= k < ScanEnd(x, y, w, 4 * w * h)
  {
    forall k | 0 < w && 0 <= k < 4 * w * h && InBrush(x, y, ColumnOf(k, w), RowOf(k, w))
      ensures ScanStart(x, y, w) <= k < ScanEnd(x, y, w, 4 * w * h)
    {
      WindowCoversBrush(x, y, w, h, k);
    }
  }

  class DrawableCanvas {
    const width: nat
    const height: nat
    /** Both the image data and the 2D context exist (the canvas was mounted). */
    const ready: bool
    /** The `ImageData` buffer, RGBA row by row. */
    const data: array<Byte>
    /** The rectangles of the last quad-tree pass, absent before the first one. */
    var rects: Option<seq<Rect>>

    ghost predicate Valid()
      reads this
    {
      data.Length == 4 * width * height && (!ready ==> rects == None)
    }

    /** The image the buffer currently holds. */
    function Img(): (img: Image)
      reads this, data
      requires Valid()
      ensures img.Valid() && img.width == width && img.height == height
    {
      Image(width, height, data[..])
    }

    /** Mounting: a fresh transparent-black buffer of width * height pixels. */
    constructor(width: nat, height: nat, mounted: bool)
      ensures Valid() && this.width == width && this.height == height && ready == mounted
      ensures fresh(data) && forall k :: 0 <= k < data.Length ==> data[k] == 0
      ensures rects == None
    {
      this.width, this.height, ready := width, height, mounted;
      data := new Byte[4 * width * height](_ => 0);
      rects := None;
    }

    /**
     * `paint`: scans the bytes of the disc's bounding rows, four at a time,
     * recovering each pixel's row and column from its byte index, and makes
     * opaque white every pixel closer than 30 to (x, y). Every byte of every
     * other pixel is left as it was.
     */
    method Paint(x: real, y: real)
      requires Valid()
      modifies data
      ensures !ready ==> data[..] == old(data[..])
      ensures ready ==> forall k :: 0 < width && 0 <= k < data.Length ==>
        data[k] == (if InBrush(x, y, ColumnOf(k, width), RowOf(k, width)) then 255 else old(data[k]))
    {
      if !ready {
        return;
      }
      var iMin := ScanStart(x, y, width);
      var iMax := ScanEnd(x, y, width, data.Length);
      ScanAligned(x, y, width, height);
      if iMin < iMax {
        PaintScan(x, y, iMin, iMax);
      }
      BrushWithinScan(x, y, width, height);
    }

    /** The loop of `paint`: every pixel of bytes iMin .. iMax - 1 inside the brush becomes white. */
    method PaintScan(x: real, y: real, iMin: int, iMax: int)
      requires Valid() && 0 < width && 0 <= iMin <= iMax <= data.Length && iMin % 4 == 0 && iMax % 4 == 0
      modifies data
      ensures forall k :: 0 <= k < data.Length ==>
        data[k] == (if iMin <= k < iMax && InBrush(x, y, ColumnOf(k, width), RowOf(k, width)) then 255 else old(data[k]))
    {
      var i := iMin;
      while i < iMax
        invariant iMin <= i <= iMax && i % 4 == 0
        invariant forall k :: 0 <= k < data.Length ==>
          data[k] == (if iMin <= k < i && InBrush(x, y, ColumnOf(k, width), RowOf(k, width)) then 255 else old(data[k]))
        decreases iMax - i
      {
        PaintCell(x, y, i);
        i := i + 4;
      }
    }

    /**
     * One step of the scan in `paint`: the pixel whose bytes start at `i` is
     * made white when it lies inside the brush; no other byte changes.
     */
    method PaintCell(x: real, y: real, i: int)
      requires Valid() && 0 < width && 0 <= i && i % 4 == 0 && i + 4 <= data.Length
      modifies data
      ensures forall k :: 0 <= k < data.Length ==>
        data[k] == (if i <= k < i + 4 && InBrush(x, y, ColumnOf(k, width), RowOf(k, width)) then 255 else old(data[k]))
    {
      var yInd := RowOf(i, width);
      var xInd := ColumnOf(i, width);
      var d2 := SquaredDistance(x, y, xInd, yInd);
      if d2 < BrushRadius * BrushRadius {
        FillCell(i, 255);
      }
      forall k | i <= k < i + 4
        ensures ColumnOf(k, width) == xInd && RowOf(k, width) == yInd
      {
        SamePixel(i, k, width);
      }
    }

    /** Sets bytes i .. i + 3 (one pixel's red, green, blue and alpha) to `v`. */
    method FillCell(i: int, v: Byte)
      requires 0 <= i && i + 4 <= data.Length
      modifies data
      ensures forall k :: 0 <= k < data.Length ==> data[k] == (if i <= k < i + 4 then v else old(data[k]))
    {
      data[i + 0] := v;
      data[i + 1] := v;
      data[i + 2] := v;
      data[i + 3] := v;
    }

    /** Writes the four bytes of pixel (px, py). */
    method SetPixel(px: int, py: int, color: seq<Byte>)
      requires Valid() && 0 <= px < width && 0 <= py < height && |color| == 4
      modifies data
      ensures forall k :: 0 <= k < data.Length ==>
        data[k] == (if ColumnOf(k, width) == px && RowOf(k, width) == py then color[k % 4] else old(data[k]))
    {
      PixelInBounds(width, height, px, py);
      var ind := 4 * (py * width + px);
      data[ind + 0] := color[0];
      data[ind + 1] := color[1];
      data[ind + 2] := color[2];
      data[ind + 3] := color[3];
      forall k | 0 <= k < data.Length
        ensures (ColumnOf(k, width) == px && RowOf(k, width) == py) <==> ind <= k < ind + 4
      {
        RowColumn(k, width, px, py);
      }
    }

    /**
     * The body of the per-rectangle callback of `paintQTreeEdges`: the
     * rectangle is filled black, then its top and bottom rows and its left
     * and right columns are drawn grey.
     */
    method DrawRect(r: Rect)
      requires Valid() && Within(Img(), r) && !IsEmpty(r)
      modifies data
      ensures forall k :: 0 <= k < data.Length ==>
        data[k] == (if Covers(r, ColumnOf(k, width), RowOf(k, width)) then RectColor(r, ColumnOf(k, width), RowOf(k, width))[k % 4]
                    else old(data[k]))
    {
      FillBlack(r);
      DrawTopBottom(r);
      DrawLeftRight(r);
    }

    /** The first loop of the callback: every pixel of the rectangle becomes opaque black. */
    method FillBlack(r: Rect)
      requires Valid() && Within(Img(), r)
      modifies data
      ensures forall k :: 0 <= k < data.Length ==>
        data[k] == (if Covers(r, ColumnOf(k, width), RowOf(k, width)) then Black[k % 4] else old(data[k]))
    {
      for x := r.left to r.right + 1
        invariant forall k :: 0 <= k < data.Length ==>
          data[k] == (if Covers(r, ColumnOf(k, width), RowOf(k, width)) && ColumnOf(k, width) < x then Black[k % 4] else old(data[k]))
      {
        FillColumn(r, x);
      }
    }

    /** The inner loop of the first loop: column x of the rectangle becomes opaque black. */
    method FillColumn(r: Rect, x: int)
      requires Valid() && Within(Img(), r) && r.left <= x <= r.right
      modifies data
      ensures forall k :: 0 <= k < data.Length ==>
        data[k] == (if Covers(r, ColumnOf(k, width), RowOf(k, width)) && ColumnOf(k, width) == x then Black[k % 4] else old(data[k]))
    {
      for y := r.top to r.bottom + 1
        invariant forall k :: 0 <= k < data.Length ==>
          data[k] == (if ColumnOf(k, width) == x && r.top <= RowOf(k, width) < y then Black[k % 4] else old(data[k]))
      {
        SetPixel(x, y, Black);
      }
    }

    /** The second loop of the callback: the top and bottom rows of the rectangle become grey. */
    method DrawTopBottom(r: Rect)
      requires Valid() && Within(Img(), r) && !IsEmpty(r)
      modifies data
      ensures forall k :: 0 <= k < data.Length ==>
        data[k] == (if Covers(r, ColumnOf(k, width), RowOf(k, width)) && (RowOf(k, width) == r.top || RowOf(k, width) == r.bottom)
                    then Grey[k % 4] else old(data[k]))
    {
      for x := r.left to r.right + 1
        invariant forall k :: 0 <= k < data.Length ==>
          data[k] == (if r.left <= ColumnOf(k, width) < x && (RowOf(k, width) == r.top || RowOf(k, width) == r.bottom)
                      then Grey[k % 4] else old(data[k]))
      {
        SetPixel(x, r.top, Grey);
        SetPixel(x, r.bottom, Grey);
      }
    }

    /** The third loop of the callback: the left and right columns of the rectangle become grey. */
    method DrawLeftRight(r: Rect)
      requires Valid() && Within(Img(), r) && !IsEmpty(r)
      modifies data
      ensures forall k :: 0 <= k < data.Length ==>
        data[k] == (if Covers(r, ColumnOf(k, width), RowOf(k, width)) && (ColumnOf(k, width) == r.left || ColumnOf(k, width) == r.right)
                    then Grey[k % 4] else old(data[k]))
    {
      for y := r.top to r.bottom + 1
        invariant forall k :: 0 <= k < data.Length ==>
          data[k] == (if r.top <= RowOf(k, width) < y && (ColumnOf(k, width) == r.left || ColumnOf(k, width) == r.right)
                      then Grey[k % 4] else old(data[k]))
      {
        SetPixel(r.left, y, Grey);
        SetPixel(r.right, y, Grey);
      }
    }

    /**
     * `paintQTreeEdges`: decomposes the current mask with the given minimum
     * size, stores the rectangles and draws them one after another. The source
     * leaves `minSize` undefined, which never drops a rectangle and so acts as
     * 0: then the tiler fails on every canvas one pixel wide or tall, and on
     * any mask whose tiling splits a one-pixel-wide or -tall piece. With
     * `minSize` at most 1 a successful run covers the opaque pixels exactly
     * once each. The alpha channel is unchanged. When the decomposition
     * fails, its error is returned and nothing changes.
     */
    method PaintQTreeEdges(minSize: int) returns (err: Option<string>)
      requires Valid()
      modifies this, data
      ensures Valid()
      ensures !ready || err.Some? ==> rects == old(rects) && data[..] == old(data[..])
      ensures err.Some? ==> ready && err.value == "Loop still running"
      ensures ready && minSize <= 0 && (width <= 1 || height <= 1) ==> err.Some?
      ensures ready && err.None? ==> rects.Some?
      ensures ready && err.None? && minSize <= 1 ==> forall x, y :: Opaque(old(Img()), x, y) <==> Count(rects.value, x, y) == 1
      ensures ready && err.None? ==> forall i, j :: 0 <= i < j < |rects.value| ==> Disjoint(rects.value[i], rects.value[j])
      ensures ready && err.None? ==> forall k :: 0 < width && 0 <= k < data.Length ==>
        data[k] == (match Painted(rects.value, ColumnOf(k, width), RowOf(k, width))
                    case Some(c) => c[k % 4]
                    case None => old(data[k]))
      ensures forall k :: 0 <= k < data.Length && k % 4 == 3 ==> data[k] == old(data[k])
    {
      err := None;
      if !ready {
        return;
      }
      var res := QTree(Img(), minSize);
      if res.Failure? {
        return Some(res.error);
      }
      var rs := res.value;
      rects := Some(rs);
      ghost var orig := data[..];
      ghost var img := Img();
      for j := 0 to |rs|
        modifies data
        invariant forall k :: 0 < width && 0 <= k < data.Length ==>
          data[k] == (match Painted(rs[..j], ColumnOf(k, width), RowOf(k, width))
                      case Some(c) => c[k % 4]
                      case None => orig[k])
      {
        DrawRect(rs[j]);
        assert rs[..j + 1][..j] == rs[..j];
      }
      assert rs[..|rs|] == rs;
      forall k | 0 <= k < data.Length && k % 4 == 3
        ensures data[k] == orig[k]
      {
        DrawingKeepsAlpha(img, rs, k);
      }
    }

    /**
     * `updateWebGL`: with a callback and stored rectangles, the boxes it
     * sends; nothing otherwise.
     */
    function UpdateWebGL(hasCallback: bool): (sent: Option<seq<Box>>)
      reads this
      requires 0 < width && 0 < height
      ensures sent.Some? <==> hasCallback && rects.Some?
      ensures sent.Some? ==> |sent.value| == |rects.value|
      ensures sent.Some? ==> forall i :: 0 <= i < |rects.value| ==> BoxToRect(sent.value[i], width, height) == rects.value[i]
      ensures sent.Some? ==> forall i :: 0 <= i < |sent.value| ==> sent.value[i].z == 0.0 && sent.value[i].kind == "box"
    {
      if hasCallback && rects.Some? then
        BoxesRoundTrip(rects.value, width, height);
        Some(Boxes(rects.value, width, height))
      else None
    }

    /**
     * `handleMouseUp`: redraws the decomposition, then sends the boxes. The
     * decomposition is run with minimum size 1, which drops exactly the empty
     * rectangles the source's undefined minimum size lets through.
     */
    method MouseUp(hasCallback: bool) returns (err: Option<string>, sent: Option<seq<Box>>)
      requires Valid() && 0 < width && 0 < height
      modifies this, data
      ensures Valid()
      ensures err.None? ==> sent == UpdateWebGL(hasCallback)
      ensures err.None? && sent.Some? ==> hasCallback && ready && rects.Some? && |sent.value| == |rects.value|
      ensures ready && err.None? ==> rects.Some? && forall x, y :: Opaque(old(Img()), x, y) <==> Count(rects.value, x, y) == 1
      ensures err.Some? ==> sent == None
    {
      err := PaintQTreeEdges(1);
      if err.Some? {
        return err, None;
      }
      sent := UpdateWebGL(hasCallback);
    }
  }

  predicate OnEdge(r: Rect, px: int, py: int)
  {
    py == r.top || py == r.bottom || px == r.left || px == r.right
  }

  /**
   * Drawing rectangles that lie on opaque pixels leaves every alpha byte as
   * it was: a painted pixel was opaque already, and both colours are opaque.
   */
  lemma DrawingKeepsAlpha(img: Image, rs: seq<Rect>, k: int)
    requires img.Valid() && 0 < img.width && 0 <= k < |img.data| && k % 4 == 3
    requires forall i :: 0 <= i < |rs| ==> Within(img, rs[i]) && AllAlpha(img, rs[i], 255)
    ensures (match Painted(rs, ColumnOf(k, img.width), RowOf(k, img.width))
             case Some(c) => c[k % 4]
             case None => img.data[k]) == img.data[k]
  {
    var px, py := ColumnOf(k, img.width), RowOf(k, img.width);
    RowColumn(k, img.width, px, py);
    if Painted(rs, px, py).Some? {
      PaintedIsCovered(rs, px, py);
      var i :| 0 <= i < |rs| && Covers(rs[i], px, py);
      assert Alpha(img, px, py) == 255;
    }
  }

  /** The colour a rectangle gives one of its pixels: grey on its outline, black inside. */
  function RectColor(r: Rect, px: int, py: int): (c: seq<Byte>)
    ensures |c| == 4 && c[3] == 255
  {
    if OnEdge(r, px, py) then Grey else Black
  }

  /** The colour pixel (px, py) ends with after drawing `rs` in order: that of the last rectangle holding it. */
  function Painted(rs: seq<Rect>, px: int, py: int): (c: Option<seq<Byte>>)
    ensures c.Some? ==> |c.value| == 4 && c.value[3] == 255
  {
    if |rs| == 0 then None
    else if Covers(rs[|rs| - 1], px, py) then Some(RectColor(rs[|rs| - 1], px, py))
    else Painted(rs[..|rs| - 1], px, py)
  }

  /** A painted pixel lies in one of the rectangles, and a pixel in one of them is painted. */
  lemma {:induction false} PaintedIsCovered(rs: seq<Rect>, px: int, py: int)
    ensures Painted(rs, px, py).Some? <==> exists i :: 0 <= i < |rs| && Covers(rs[i], px, py)
    decreases |rs|
  {
    if |rs| > 0 {
      var n := |rs| - 1;
      PaintedIsCovered(rs[..n], px, py);
      if exists i :: 0 <= i < |rs| && Covers(rs[i], px, py) {
        var i :| 0 <= i < |rs| && Covers(rs[i], px, py);
        if i < n {
          assert rs[..n][i] == rs[i];
        }
      }
      if exists i :: 0 <= i < n && Covers(rs[..n][i], px, py) {
        var i :| 0 <= i < n && Covers(rs[..n][i], px, py);
        assert Covers(rs[i], px, py);
      }
    }
  }

  /** Among pairwise-disjoint rectangles, a pixel takes the colour of the one rectangle holding it. */
  lemma {:induction false} PaintedDisjoint(rs: seq<Rect>, i: int, px: int, py: int)
    requires 0 <= i < |rs| && Covers(rs[i], px, py)
    requires forall a, b :: 0 <= a < b < |rs| ==> Disjoint(rs[a], rs[b])
    ensures Painted(rs, px, py) == Some(RectColor(rs[i], px, py))
    decreases |rs|
  {
    var n := |rs| - 1;
    if i < n {
      assert !Covers(rs[n], px, py) by {
        assert Disjoint(rs[i], rs[n]);
      }
      assert rs[..n][i] == rs[i];
      PaintedDisjoint(rs[..n], i, px, py);
    }
  }

  /** The box for one rectangle: centre mapped to [-1, 1] with y pointing up, size as a fraction of the canvas. */
  function RectToBox(r: Rect, width: nat, height: nat): (b: Box)
    requires 0 < width && 0 < height
    ensures BoxToRect(b, width, height) == r
    ensures b.z == 0.0 && b.kind == "box"
  {
    var b := Box(2.0 * ((0.5 * (r.left + r.right) as real) / width as real - 0.5),
        2.0 * (1.0 - (0.5 * (r.top + r.bottom) as real) / height as real - 0.5),
        0.0,
        (r.right - r.left) as real / width as real,
        (r.bottom - r.top) as real / height as real,
        "box");
    var W, H := width as real, height as real;
    assert (b.x / 2.0 + 0.5) * W == 0.5 * (r.left + r.right) as real;
    assert (1.0 - (b.y / 2.0 + 0.5)) * H == 0.5 * (r.top + r.bottom) as real;
    assert b.w * W / 2.0 == 0.5 * (r.right - r.left) as real;
    assert b.h * H / 2.0 == 0.5 * (r.bottom - r.top) as real;
    b
  }

  function Boxes(rs: seq<Rect>, width: nat, height: nat): (bs: seq<Box>)
    requires 0 < width && 0 < height
    ensures |bs| == |rs| && forall i :: 0 <= i < |rs| ==> bs[i] == RectToBox(rs[i], width, height)
  {
    seq(|rs|, i requires 0 <= i < |rs| => RectToBox(rs[i], width, height))
  }

  /** Reads the rectangle back from a box: the mapping loses nothing. */
  function BoxToRect(b: Box, width: nat, height: nat): Rect
  {
    var cx := (b.x / 2.0 + 0.5) * width as real;
    var cy := (1.0 - (b.y / 2.0 + 0.5)) * height as real;
    var hw := b.w * width as real / 2.0;
    var hh := b.h * height as real / 2.0;
    Rect((cx - hw).Floor, (cx + hw).Floor, (cy - hh).Floor, (cy + hh).Floor)
  }

  lemma BoxesRoundTrip(rs: seq<Rect>, width: nat, height: nat)
    requires 0 < width && 0 < height
    ensures forall i :: 0 <= i < |rs| ==> BoxToRect(Boxes(rs, width, height)[i], width, height) == rs[i]
  {
  }

  /**
   * Boxes of rectangles inside the canvas have centres in [-1, 1]; a
   * rectangle lower on the canvas (larger row numbers) gets a smaller y, so
   * the vertical axis is flipped.
   */
  lemma BoxInClipSpace(r: Rect, s: Rect, width: nat, height: nat)
    requires 0 < width && 0 < height
    requires 0 <= r.left <= r.right < width && 0 <= r.top <= r.bottom < height
    ensures -1.0 <= RectToBox(r, width, height).x <= 1.0
    ensures -1.0 <= RectToBox(r, width, height).y <= 1.0
    ensures 0.0 <= RectToBox(r, width, height).w < 1.0 && 0.0 <= RectToBox(r, width, height).h < 1.0
    ensures r.top + r.bottom < s.top + s.bottom ==> RectToBox(s, width, height).y < RectToBox(r, width, height).y
  {
    var W, H := width as real, height as real;
    Fraction(0.5 * (r.left + r.right) as real, W);
    Fraction(0.5 * (r.top + r.bottom) as real, H);
    Fraction((r.right - r.left) as real, W);
    Fraction((r.bottom - r.top) as real, H);
    if r.top + r.bottom < s.top + s.bottom {
      FractionMonotone(0.5 * (r.top + r.bottom) as real, 0.5 * (s.top + s.bottom) as real, H);
    }
  }

  /** A part of a positive whole, as a fraction: in [0, 1], and below 1 when the part is smaller. */
  lemma Fraction(a: real, d: real)
    requires 0.0 < d
    ensures 0.0 <= a <= d ==> 0.0 <= a / d <= 1.0
    ensures 0.0 <= a < d ==> a / d < 1.0
  {
  }

  lemma FractionMonotone(a: real, b: real, d: real)
    requires 0.0 < d && a < b
    ensures a / d < b / d
  {
  }
}
