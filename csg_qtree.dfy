/**
 * The quad-tree decomposition of the CSG drawing canvas: the opaque pixels of
 * an RGBA image are covered by a list of axis-aligned rectangles, found by
 * repeatedly splitting a rectangle into four quadrants, keeping the opaque
 * ones, dropping the transparent ones and splitting the mixed ones again.
 *
 * Rectangles are inclusive on both ends, as in the source: the rectangle
 * (left, right, top, bottom) holds the pixels left <= x <= right,
 * top <= y <= bottom, and is empty when right < left or bottom < top.
 */
module QuadTree {
  import opened Wrappers
  import opened Raster

  datatype Rect = Rect(left: int, right: int, top: int, bottom: int)

  /** The three answers of `classify`: 0 (all transparent), 1 (all opaque), 0.5 (anything else). */
  datatype Coverage = Clear | Partial | Full

  /** The number the source uses for each class. */
  function Weight(c: Coverage): real
  {
    match c
    case Clear => 0.0
    case Partial => 0.5
    case Full => 1.0
  }

  predicate Covers(r: Rect, x: int, y: int)
  {
    r.left <= x <= r.right && r.top <= y <= r.bottom
  }

  predicate IsEmpty(r: Rect)
  {
    r.right < r.left || r.bottom < r.top
  }

  /** Widths and heights (right - left + 1, bottom - top + 1) are never negative. */
  predicate WellFormed(r: Rect)
  {
    r.left <= r.right + 1 && r.top <= r.bottom + 1
  }

  /** Well formed, and every pixel it covers lies inside the image. */
  predicate Within(img: Image, r: Rect)
  {
    0 <= r.left <= r.right + 1 <= img.width && 0 <= r.top <= r.bottom + 1 <= img.height
  }

  predicate InImage(img: Image, x: int, y: int)
  {
    0 <= x < img.width && 0 <= y < img.height
  }

  predicate Opaque(img: Image, x: int, y: int)
    requires img.Valid()
  {
    InImage(img, x, y) && Alpha(img, x, y) == 255
  }

  /** Every pixel of `r` lies in the image and has alpha `a`. */
  ghost predicate AllAlpha(img: Image, r: Rect, a: int)
    requires img.Valid()
  {
    forall x, y :: Covers(r, x, y) ==> InImage(img, x, y) && Alpha(img, x, y) == a
  }

  /** No pixel lies in both rectangles. */
  ghost predicate Disjoint(a: Rect, b: Rect)
  {
    forall x, y :: !(Covers(a, x, y) && Covers(b, x, y))
  }

  /** 1 when pixel (x, y) lies in `r`, else 0. */
  function Cov(r: Rect, x: int, y: int): nat
  {
    if Covers(r, x, y) then 1 else 0
  }

  /** How many rectangles of `rs` contain pixel (x, y). */
  function Count(rs: seq<Rect>, x: int, y: int): nat
  {
    if |rs| == 0 then 0
    else Count(rs[..|rs| - 1], x, y) + Cov(rs[|rs| - 1], x, y)
  }

  /** How many of rs[i..] contain pixel (x, y). */
  function CountFrom(rs: seq<Rect>, i: nat, x: int, y: int): nat
    decreases |rs| - i
  {
    if i >= |rs| then 0
    else Cov(rs[i], x, y) + CountFrom(rs, i + 1, x, y)
  }

  /** The classification `classify` computes, stated on pixels. */
  ghost function ClassOf(img: Image, r: Rect): Coverage
    requires img.Valid()
  {
    if !IsEmpty(r) && AllAlpha(img, r, 0) then Clear
    else if !IsEmpty(r) && AllAlpha(img, r, 255) then Full
    else Partial
  }

  /** Pixel width and height: the counts of columns and rows the rectangle covers. */
  function Size(r: Rect): (wh: (int, int))
    ensures WellFormed(r) ==> wh.0 >= 0 && wh.1 >= 0
    ensures IsEmpty(r) <==> wh.0 <= 0 || wh.1 <= 0
  {
    (r.right - r.left + 1, r.bottom - r.top + 1)
  }

  /** An empty rectangle is exactly one that covers no pixel. */
  lemma EmptyIffNoPixel(r: Rect)
    ensures IsEmpty(r) <==> forall x, y :: !Covers(r, x, y)
  {
    if !IsEmpty(r) {
      assert Covers(r, r.left, r.top);
    }
  }

  /** Splits a rectangle at its (rounded-down) centre into four quadrants: top-left, top-right, bottom-right, bottom-left. */
  function MakeQuads(r: Rect): (q: seq<Rect>)
    ensures |q| == 4
    ensures WellFormed(r) ==> forall x, y ::
      Cov(q[0], x, y) + Cov(q[1], x, y) + Cov(q[2], x, y) + Cov(q[3], x, y) == Cov(r, x, y)
  {
    var midX := (r.left + r.right) / 2;
    var midY := (r.top + r.bottom) / 2;
    [Rect(r.left, midX, r.top, midY),
     Rect(midX + 1, r.right, r.top, midY),
     Rect(midX + 1, r.right, midY + 1, r.bottom),
     Rect(r.left, midX, midY + 1, r.bottom)]
  }

  /** CountFrom over the four quadrants is their sum, term by term. */
  lemma CountFromQuads(q: seq<Rect>, x: int, y: int)
    requires |q| == 4
    ensures CountFrom(q, 3, x, y) == Cov(q[3], x, y)
    ensures CountFrom(q, 2, x, y) == Cov(q[2], x, y) + Cov(q[3], x, y)
    ensures CountFrom(q, 0, x, y) == Cov(q[0], x, y) + Cov(q[1], x, y) + Cov(q[2], x, y) + Cov(q[3], x, y)
  {
    assert CountFrom(q, 4, x, y) == 0;
  }

  /** The quadrants of a rectangle inside the image are themselves inside it, and nested in the rectangle. */
  lemma QuadsWithin(img: Image, r: Rect)
    requires Within(img, r)
    ensures forall i :: 0 <= i < 4 ==> Within(img, MakeQuads(r)[i])
    ensures forall i, x, y :: 0 <= i < 4 && Covers(MakeQuads(r)[i], x, y) ==> Covers(r, x, y)
  {
  }

  function Lefts(qs: seq<Rect>): (s: seq<int>)
    ensures |s| == |qs| && forall i :: 0 <= i < |qs| ==> s[i] == qs[i].left
  {
    if |qs| == 0 then [] else Lefts(qs[..|qs| - 1]) + [qs[|qs| - 1].left]
  }

  function Rights(qs: seq<Rect>): (s: seq<int>)
    ensures |s| == |qs| && forall i :: 0 <= i < |qs| ==> s[i] == qs[i].right
  {
    if |qs| == 0 then [] else Rights(qs[..|qs| - 1]) + [qs[|qs| - 1].right]
  }

  function Tops(qs: seq<Rect>): (s: seq<int>)
    ensures |s| == |qs| && forall i :: 0 <= i < |qs| ==> s[i] == qs[i].top
  {
    if |qs| == 0 then [] else Tops(qs[..|qs| - 1]) + [qs[|qs| - 1].top]
  }

  function Bottoms(qs: seq<Rect>): (s: seq<int>)
    ensures |s| == |qs| && forall i :: 0 <= i < |qs| ==> s[i] == qs[i].bottom
  {
    if |qs| == 0 then [] else Bottoms(qs[..|qs| - 1]) + [qs[|qs| - 1].bottom]
  }

  /** `Math.min` of a non-empty list. */
  function MinOf(s: seq<int>): (m: int)
    requires |s| > 0
    ensures m in s && forall v :: v in s ==> m <= v
  {
    if |s| == 1 then s[0]
    else
      var rest := MinOf(s[1..]);
      assert forall v :: v in s ==> v == s[0] || v in s[1..];
      if s[0] <= rest then s[0] else rest
  }

  /** `Math.max` of a non-empty list. */
  function MaxOf(s: seq<int>): (m: int)
    requires |s| > 0
    ensures m in s && forall v :: v in s ==> v <= m
  {
    if |s| == 1 then s[0]
    else
      var rest := MaxOf(s[1..]);
      assert forall v :: v in s ==> v == s[0] || v in s[1..];
      if s[0] >= rest then s[0] else rest
  }

  /** Joins side-by-side rectangles: widest horizontal extent, top and bottom of the first. */
  function MergeH(quads: seq<Rect>): (r: Result<Rect, string>)
    ensures r.Failure? <==> |quads| == 0
    ensures r.Failure? ==> r.error == "Must provide rects to merge"
    ensures r.Success? ==> r.value.top == quads[0].top && r.value.bottom == quads[0].bottom
    ensures r.Success? ==> forall i :: 0 <= i < |quads| ==> r.value.left <= quads[i].left && quads[i].right <= r.value.right
    ensures r.Success? ==> exists i :: 0 <= i < |quads| && r.value.left == quads[i].left
    ensures r.Success? ==> exists i :: 0 <= i < |quads| && r.value.right == quads[i].right
  {
    if |quads| == 0 then Failure("Must provide rects to merge")
    else
      assert forall i :: 0 <= i < |quads| ==> Lefts(quads)[i] in Lefts(quads) && Rights(quads)[i] in Rights(quads);
      Success(Rect(MinOf(Lefts(quads)), MaxOf(Rights(quads)), quads[0].top, quads[0].bottom))
  }

  /** Joins stacked rectangles: tallest vertical extent, left and right of the first. */
  function MergeV(quads: seq<Rect>): (r: Result<Rect, string>)
    ensures r.Failure? <==> |quads| == 0
    ensures r.Failure? ==> r.error == "Must provide rects to merge"
    ensures r.Success? ==> r.value.left == quads[0].left && r.value.right == quads[0].right
    ensures r.Success? ==> forall i :: 0 <= i < |quads| ==> r.value.top <= quads[i].top && quads[i].bottom <= r.value.bottom
    ensures r.Success? ==> exists i :: 0 <= i < |quads| && r.value.top == quads[i].top
    ensures r.Success? ==> exists i :: 0 <= i < |quads| && r.value.bottom == quads[i].bottom
  {
    if |quads| == 0 then Failure("Must provide rects to merge")
    else
      assert forall i :: 0 <= i < |quads| ==> Tops(quads)[i] in Tops(quads) && Bottoms(quads)[i] in Bottoms(quads);
      Success(Rect(quads[0].left, quads[0].right, MinOf(Tops(quads)), MaxOf(Bottoms(quads))))
  }

  /** Two non-empty rectangles in one row that touch side by side merge into exactly their union. */
  lemma MergeHAdjacent(a: Rect, b: Rect)
    requires a.top == b.top && a.bottom == b.bottom
    requires WellFormed(a) && WellFormed(b)
    requires a.right + 1 == b.left || b.right + 1 == a.left
    ensures MergeH([a, b]).Success?
    ensures forall x, y :: Covers(MergeH([a, b]).value, x, y) <==> Covers(a, x, y) || Covers(b, x, y)
    ensures WellFormed(MergeH([a, b]).value)
  {
    assert Lefts([a, b]) == [a.left, b.left];
    assert Rights([a, b]) == [a.right, b.right];
  }

  /** Two rectangles in one column that touch one above the other merge into exactly their union. */
  lemma MergeVAdjacent(a: Rect, b: Rect)
    requires a.left == b.left && a.right == b.right
    requires WellFormed(a) && WellFormed(b)
    requires a.bottom + 1 == b.top || b.bottom + 1 == a.top
    ensures MergeV([a, b]).Success?
    ensures forall x, y :: Covers(MergeV([a, b]).value, x, y) <==> Covers(a, x, y) || Covers(b, x, y)
    ensures WellFormed(MergeV([a, b]).value)
  {
    assert Tops([a, b]) == [a.top, b.top];
    assert Bottoms([a, b]) == [a.bottom, b.bottom];
  }

  /**
   * What `classify` knows after scanning the columns r.left .. x - 1: `mn`
   * and `mx` are the least and greatest alpha seen, attained at (nx, ny) and
   * (vx, vy), or still 256 and -1 when nothing was seen.
   */
  ghost predicate Scanned(img: Image, r: Rect, x: int, mn: int, mx: int, nx: int, ny: int, vx: int, vy: int)
    requires img.Valid() && Within(img, r)
  {
    r.left <= x <= r.right + 1 &&
    0 <= mn <= 256 && -1 <= mx <= 255 && (mn == 256 <==> mx == -1) &&
    (mx == -1 ==> x == r.left || r.bottom < r.top) &&
    (mx != -1 ==> r.left <= vx < x && r.top <= vy <= r.bottom && Alpha(img, vx, vy) == mx) &&
    (mn != 256 ==> r.left <= nx < x && r.top <= ny <= r.bottom && Alpha(img, nx, ny) == mn) &&
    forall px, py :: r.left <= px < x && r.top <= py <= r.bottom ==> mn <= Alpha(img, px, py) <= mx
  }

  /**
   * `classify`: scans the alpha byte of every pixel of `r`, column by column,
   * tracking the least and greatest value seen (256 and -1 stand for the
   * source's +Infinity and -Infinity starting values).
   */
  method Classify(img: Image, r: Rect) returns (c: Coverage)
    requires img.Valid() && Within(img, r)
    ensures c == ClassOf(img, r)
  {
    var mn, mx := 256, -1;
    ghost var nx, ny, vx, vy := 0, 0, 0, 0;
    var x := r.left;
    while x <= r.right
      invariant Scanned(img, r, x, mn, mx, nx, ny, vx, vy)
    {
      mn, mx, nx, ny, vx, vy := ScanColumn(img, r, x, mn, mx, nx, ny, vx, vy);
      x := x + 1;
    }
    if mn == 0 && mx == 0 {
      c := Clear;
    } else if mn == 255 && mx == 255 {
      c := Full;
    } else {
      c := Partial;
    }
    if !IsEmpty(r) {
      assert Covers(r, vx, vy);
      if AllAlpha(img, r, 0) {
        assert Alpha(img, nx, ny) == 0;
      }
      if AllAlpha(img, r, 255) {
        assert Alpha(img, vx, vy) == 255;
      }
    }
  }

  /**
   * The state of the column scan of `classify` at row y of column x: the
   * columns before x and the rows of column x before y have been seen.
   */
  ghost predicate ColumnScanned(img: Image, r: Rect, x: int, y: int, mn: int, mx: int, nx: int, ny: int, vx: int, vy: int)
    requires img.Valid() && Within(img, r) && r.left <= x <= r.right
  {
    r.top <= y <= r.bottom + 1 &&
    0 <= mn <= 256 && -1 <= mx <= 255 && (mn == 256 <==> mx == -1) &&
    (mx == -1 ==> (x == r.left || r.bottom < r.top) && y == r.top) &&
    (mx != -1 ==> Covers(r, vx, vy) && vx <= x && Alpha(img, vx, vy) == mx) &&
    (mn != 256 ==> Covers(r, nx, ny) && nx <= x && Alpha(img, nx, ny) == mn) &&
    (forall px, py :: r.left <= px < x && r.top <= py <= r.bottom ==> mn <= Alpha(img, px, py) <= mx) &&
    forall py :: r.top <= py < y ==> mn <= Alpha(img, x, py) <= mx
  }

  /** The inner loop of `classify`: scans column x from top to bottom. */
  method ScanColumn(img: Image, r: Rect, x: int, mn0: int, mx0: int, ghost nx0: int, ghost ny0: int, ghost vx0: int, ghost vy0: int)
    returns (mn: int, mx: int, ghost nx: int, ghost ny: int, ghost vx: int, ghost vy: int)
    requires img.Valid() && Within(img, r) && x <= r.right
    requires Scanned(img, r, x, mn0, mx0, nx0, ny0, vx0, vy0)
    ensures Scanned(img, r, x + 1, mn, mx, nx, ny, vx, vy)
  {
    mn, mx, nx, ny, vx, vy := mn0, mx0, nx0, ny0, vx0, vy0;
    var y := r.top;
    while y <= r.bottom
      invariant ColumnScanned(img, r, x, y, mn, mx, nx, ny, vx, vy)
      decreases r.bottom - y
    {
      mn, mx, nx, ny, vx, vy := ScanPixel(img, r, x, y, mn, mx, nx, ny, vx, vy);
      y := y + 1;
    }
    ColumnDone(img, r, x, mn, mx, nx, ny, vx, vy);
  }

  /** One step of the inner loop: pixel (x, y) lowers the least or raises the greatest value seen. */
  method ScanPixel(img: Image, r: Rect, x: int, y: int, mn0: int, mx0: int, ghost nx0: int, ghost ny0: int, ghost vx0: int, ghost vy0: int)
    returns (mn: int, mx: int, ghost nx: int, ghost ny: int, ghost vx: int, ghost vy: int)
    requires img.Valid() && Within(img, r) && r.left <= x <= r.right && y <= r.bottom
    requires ColumnScanned(img, r, x, y, mn0, mx0, nx0, ny0, vx0, vy0)
    ensures ColumnScanned(img, r, x, y + 1, mn, mx, nx, ny, vx, vy)
  {
    mn, mx, nx, ny, vx, vy := mn0, mx0, nx0, ny0, vx0, vy0;
    var v := Alpha(img, x, y);
    if v < mn {
      mn := v;
      nx, ny := x, y;
    }
    if v > mx {
      mx := v;
      vx, vy := x, y;
    }
  }

  /** A column scanned to its last row extends the scanned region by one column. */
  lemma ColumnDone(img: Image, r: Rect, x: int, mn: int, mx: int, nx: int, ny: int, vx: int, vy: int)
    requires img.Valid() && Within(img, r) && r.left <= x <= r.right
    requires ColumnScanned(img, r, x, r.bottom + 1, mn, mx, nx, ny, vx, vy)
    ensures Scanned(img, r, x + 1, mn, mx, nx, ny, vx, vy)
  {
  }

  /**
   * What the main loop keeps true of its work stack and its output, with
   * `pend` the pieces of a popped rectangle not yet handed on: everything
   * lies in the image, every output rectangle is non-empty and opaque, no
   * pixel is held twice, and (when nothing with pixels is dropped for size)
   * every opaque pixel is held once.
   */
  ghost predicate Pending(img: Image, minSize: int, rects: seq<Rect>, finals: seq<Rect>, pend: seq<Rect>)
    requires img.Valid()
  {
    (forall i :: 0 <= i < |rects| ==> Within(img, rects[i])) &&
    (forall i :: 0 <= i < |finals| ==> Within(img, finals[i]) && !IsEmpty(finals[i]) && AllAlpha(img, finals[i], 255)) &&
    (forall i :: 0 <= i < |pend| ==> Within(img, pend[i])) &&
    (forall x, y :: Count(rects, x, y) + Count(finals, x, y) + Count(pend, x, y) <= 1) &&
    (minSize <= 1 ==> forall x, y :: Opaque(img, x, y) ==> Count(rects, x, y) + Count(finals, x, y) + Count(pend, x, y) >= 1)
  }

  ghost predicate Tiling(img: Image, minSize: int, rects: seq<Rect>, finals: seq<Rect>)
    requires img.Valid()
  {
    Pending(img, minSize, rects, finals, [])
  }

  /** Some rectangle of `rs` covers no pixel. */
  ghost predicate HoldsEmpty(rs: seq<Rect>)
  {
    exists i :: 0 <= i < |rs| && IsEmpty(rs[i])
  }

  /**
   * A well-formed rectangle has an empty quadrant exactly when it is at most
   * one pixel wide (then the top-right one is empty) or at most one pixel
   * tall (then the bottom-right one is).
   */
  lemma NarrowQuads(r: Rect)
    requires WellFormed(r)
    ensures Size(r).0 <= 1 ==> IsEmpty(MakeQuads(r)[1]) && IsEmpty(MakeQuads(r)[2])
    ensures Size(r).1 <= 1 ==> IsEmpty(MakeQuads(r)[2]) && IsEmpty(MakeQuads(r)[3])
    ensures Size(r).0 >= 2 && Size(r).1 >= 2 ==> forall i :: 0 <= i < 4 ==> !IsEmpty(MakeQuads(r)[i])
  {
  }

  /** Counting a list from its front. */
  lemma {:induction false} CountCons(rs: seq<Rect>, x: int, y: int)
    requires |rs| > 0
    ensures Count(rs, x, y) == Cov(rs[0], x, y) + Count(rs[1..], x, y)
    decreases |rs|
  {
    if |rs| > 1 {
      var n := |rs| - 1;
      CountCons(rs[..n], x, y);
      assert rs[..n][1..] == rs[1..][..n - 1];
      assert rs[..n][0] == rs[0];
    } else {
      assert rs[..0] == [] && rs[1..] == [];
    }
  }

  /** The popped rectangle becomes the pending piece, then its pieces `q` in any order. */
  lemma StartPending(img: Image, minSize: int, rects: seq<Rect>, finals: seq<Rect>, rect: Rect, q: seq<Rect>)
    requires img.Valid() && Within(img, rect) && |q| == 4
    requires forall i :: 0 <= i < 4 ==> Within(img, q[i])
    requires forall x, y :: Cov(q[0], x, y) + Cov(q[1], x, y) + Cov(q[2], x, y) + Cov(q[3], x, y) == Cov(rect, x, y)
    requires Tiling(img, minSize, rects + [rect], finals)
    ensures Pending(img, minSize, rects, finals, q)
  {
    CountSnoc(rects, rect);
    forall x, y
      ensures Count(q, x, y) == Cov(rect, x, y)
    {
      CountCons(q, x, y);
      CountCons(q[1..], x, y);
      CountCons(q[2..], x, y);
      CountCons(q[3..], x, y);
      assert q[1..][1..] == q[2..] && q[2..][1..] == q[3..] && q[3..][1..] == [];
    }
  }

  /** The popped rectangle becomes the one pending piece. */
  lemma StartWhole(img: Image, minSize: int, rects: seq<Rect>, finals: seq<Rect>, rect: Rect)
    requires img.Valid() && Within(img, rect)
    requires Tiling(img, minSize, rects + [rect], finals)
    ensures Pending(img, minSize, rects, finals, [rect])
  {
    CountSnoc(rects, rect);
    assert [rect][..0] == [];
    assert forall i :: 0 <= i < |rects| ==> (rects + [rect])[i] == rects[i];
  }

  /** The first pending piece is pushed on the work stack. */
  lemma PushStep(img: Image, minSize: int, rects: seq<Rect>, finals: seq<Rect>, pend: seq<Rect>)
    requires img.Valid() && |pend| > 0
    requires Pending(img, minSize, rects, finals, pend)
    ensures Pending(img, minSize, rects + [pend[0]], finals, pend[1..])
  {
    CountSnoc(rects, pend[0]);
    forall x, y {
      CountCons(pend, x, y);
    }
  }

  /** The first pending piece, non-empty and opaque, is output. */
  lemma FinalStep(img: Image, minSize: int, rects: seq<Rect>, finals: seq<Rect>, pend: seq<Rect>)
    requires img.Valid() && |pend| > 0
    requires Pending(img, minSize, rects, finals, pend)
    requires !IsEmpty(pend[0]) && AllAlpha(img, pend[0], 255)
    ensures Pending(img, minSize, rects, finals + [pend[0]], pend[1..])
  {
    CountSnoc(finals, pend[0]);
    forall x, y {
      CountCons(pend, x, y);
    }
  }

  /** The first pending piece, which has no opaque pixel, is dropped. */
  lemma DropStep(img: Image, minSize: int, rects: seq<Rect>, finals: seq<Rect>, pend: seq<Rect>)
    requires img.Valid() && |pend| > 0
    requires Pending(img, minSize, rects, finals, pend)
    requires forall x, y :: Covers(pend[0], x, y) ==> !Opaque(img, x, y)
    ensures Pending(img, minSize, rects, finals, pend[1..])
  {
    forall x, y {
      CountCons(pend, x, y);
    }
  }

  /** The first two pending pieces are replaced by a rectangle covering exactly both. */
  lemma MergeStep(img: Image, minSize: int, rects: seq<Rect>, finals: seq<Rect>, pend: seq<Rect>, m: Rect)
    requires img.Valid() && |pend| > 1 && Within(img, m)
    requires Pending(img, minSize, rects, finals, pend)
    requires forall x, y :: Cov(m, x, y) == Cov(pend[0], x, y) + Cov(pend[1], x, y)
    ensures Pending(img, minSize, rects, finals, [m] + pend[2..])
  {
    forall x, y
      ensures Count([m] + pend[2..], x, y) == Count(pend, x, y)
    {
      CountCons(pend, x, y);
      CountCons(pend[1..], x, y);
      CountCons([m] + pend[2..], x, y);
      assert pend[1..][1..] == pend[2..] && ([m] + pend[2..])[1..] == pend[2..];
    }
  }

  /** A dropped rectangle (too small for `minSize`) costs nothing when it has no pixel to lose. */
  lemma SkipStep(img: Image, minSize: int, rects: seq<Rect>, finals: seq<Rect>, rect: Rect)
    requires img.Valid()
    requires Tiling(img, minSize, rects + [rect], finals)
    requires minSize <= 1 ==> IsEmpty(rect)
    ensures Tiling(img, minSize, rects, finals)
  {
    CountSnoc(rects, rect);
  }

  lemma CountSnoc(rs: seq<Rect>, r: Rect)
    ensures forall x, y :: Count(rs + [r], x, y) == Count(rs, x, y) + Cov(r, x, y)
  {
    assert (rs + [r])[..|rs|] == rs;
  }

  /** A pixel inside two different members of a list is counted twice. */
  lemma {:induction false} CountTwo(rs: seq<Rect>, i: int, j: int, x: int, y: int)
    requires 0 <= i < j < |rs|
    requires Covers(rs[i], x, y) && Covers(rs[j], x, y)
    ensures Count(rs, x, y) >= 2
    decreases |rs|
  {
    var n := |rs| - 1;
    var init := rs[..n];
    if j < n {
      assert init[i] == rs[i] && init[j] == rs[j];
      CountTwo(init, i, j, x, y);
    } else {
      assert init[i] == rs[i];
      CountOne(init, i, x, y);
    }
  }

  /** A pixel inside some member of a list is counted at least once, and a counted pixel lies in some member. */
  lemma {:induction false} CountOne(rs: seq<Rect>, i: int, x: int, y: int)
    requires 0 <= i < |rs| && Covers(rs[i], x, y)
    ensures Count(rs, x, y) >= 1
    decreases |rs|
  {
    var n := |rs| - 1;
    if i < n {
      assert rs[..n][i] == rs[i];
      CountOne(rs[..n], i, x, y);
    }
  }

  lemma {:induction false} CountedIsCovered(rs: seq<Rect>, x: int, y: int)
    requires Count(rs, x, y) >= 1
    ensures exists i :: 0 <= i < |rs| && Covers(rs[i], x, y)
    decreases |rs|
  {
    var n := |rs| - 1;
    if !Covers(rs[n], x, y) {
      CountedIsCovered(rs[..n], x, y);
      var i :| 0 <= i < n && Covers(rs[..n][i], x, y);
      assert Covers(rs[i], x, y);
    }
  }

  /**
   * `qtree`: the work stack starts with the whole image; a rectangle narrower
   * or shorter than `minSize` is dropped; otherwise its quadrants are
   * classified and, by the first matching case, all four opaque quadrants
   * give the rectangle itself, two opaque quadrants along the left, right,
   * bottom or top edge give their merge, and the other quadrants are pushed
   * back unless transparent; failing all of those, each opaque quadrant is
   * output and each mixed one pushed. More than 10000 splits is an error.
   *
   * On success the output rectangles are non-empty, lie in the image, are
   * fully opaque and pairwise disjoint; when no rectangle with pixels can be
   * dropped for size (minSize <= 1) they cover every opaque pixel.
   */
  method QTree(img: Image, minSize: int) returns (res: Result<seq<Rect>, string>)
    requires img.Valid()
    ensures res.Failure? ==> res.error == "Loop still running"
    ensures res.Success? ==> forall i :: 0 <= i < |res.value| ==>
      Within(img, res.value[i]) && !IsEmpty(res.value[i]) && AllAlpha(img, res.value[i], 255)
    ensures res.Success? ==> forall i, j :: 0 <= i < j < |res.value| ==> Disjoint(res.value[i], res.value[j])
    ensures res.Success? && minSize <= 1 ==> forall x, y :: Opaque(img, x, y) <==> Count(res.value, x, y) == 1
    ensures img.width < minSize || img.height < minSize ==> res == Success([])
    ensures minSize <= 0 && (img.width <= 1 || img.height <= 1) ==> res.Failure?
  {
    var rects := [Rect(0, img.width - 1, 0, img.height - 1)];
    var finals: seq<Rect> := [];
    var iterCount := 0;
    assert rects[..0] == [];
    while |rects| > 0
      invariant 0 <= iterCount <= 10000
      invariant Tiling(img, minSize, rects, finals)
      invariant img.width < minSize || img.height < minSize ==>
        iterCount == 0 && finals == [] && (rects == [] || rects == [Rect(0, img.width - 1, 0, img.height - 1)])
      invariant minSize <= 0 && (img.width <= 1 || img.height <= 1) ==>
        HoldsEmpty(rects) || (iterCount == 0 && rects == [Rect(0, img.width - 1, 0, img.height - 1)])
      decreases 10000 - iterCount, |rects|
    {
      var rect := rects[|rects| - 1];
      assert rects == rects[..|rects| - 1] + [rect];
      ghost var stuck := HoldsEmpty(rects) && !IsEmpty(rect);
      if stuck {
        var i :| 0 <= i < |rects| && IsEmpty(rects[i]);
        assert rects[..|rects| - 1][i] == rects[i];
      }
      rects := rects[..|rects| - 1];
      var (width, height) := Size(rect);
      if width < minSize || height < minSize {
        SkipStep(img, minSize, rects, finals, rect);
        continue;
      }
      var quads := MakeQuads(rect);
      QuadsWithin(img, rect);
      var classes := ClassifyQuads(img, quads);
      ghost var before := rects;
      rects, finals := Split(img, minSize, rects, finals, rect, quads, classes);
      if minSize <= 0 && (img.width <= 1 || img.height <= 1) {
        StuckStays(before, rects, rect, stuck);
      }
      iterCount := iterCount + 1;
      if iterCount > 10000 {
        return Failure("Loop still running");
      }
    }
    assert rects == [];
    TilingDone(img, minSize, finals);
    return Success(finals);
  }

  /**
   * Once an empty rectangle is on the work stack it stays there: either it
   * lies below the one popped, and the stack only grows above it, or the
   * popped one is narrow and its split pushes an empty one.
   */
  lemma StuckStays(before: seq<Rect>, after: seq<Rect>, rect: Rect, stuck: bool)
    requires |before| <= |after| && after[..|before|] == before
    requires stuck ==> HoldsEmpty(before)
    requires !stuck && (Size(rect).0 <= 1 || Size(rect).1 <= 1) ==> HoldsEmpty(after[|before|..])
    requires stuck || Size(rect).0 <= 1 || Size(rect).1 <= 1
    ensures HoldsEmpty(after)
  {
    if stuck {
      var i :| 0 <= i < |before| && IsEmpty(before[i]);
      assert after[i] == before[i];
    } else {
      var i :| 0 <= i < |after[|before|..]| && IsEmpty(after[|before|..][i]);
      assert after[|before| + i] == after[|before|..][i];
    }
  }

  /** A one-pixel rectangle is classed by that pixel's alpha alone. */
  lemma PixelClass(img: Image, x: int, y: int)
    requires img.Valid() && InImage(img, x, y)
    ensures Alpha(img, x, y) == 255 ==> ClassOf(img, Rect(x, x, y, y)) == Full
    ensures Alpha(img, x, y) == 0 ==> ClassOf(img, Rect(x, x, y, y)) == Clear
  {
    var p := Rect(x, x, y, y);
    assert forall a, b :: Covers(p, a, b) ==> a == x && b == y;
  }

  /**
   * A two-by-two block with three opaque pixels and a transparent
   * bottom-right one: its quadrants class as opaque, opaque, transparent,
   * opaque, so the left-pair case applies and pushes back the single opaque
   * top-right pixel, which is one pixel wide and so pushes an empty
   * rectangle when it is split in turn.
   */
  lemma CornerBlockPushesPixel(img: Image, x: int, y: int)
    requires img.Valid() && 0 <= x && x + 1 < img.width && 0 <= y && y + 1 < img.height
    requires Alpha(img, x, y) == 255 && Alpha(img, x + 1, y) == 255 && Alpha(img, x, y + 1) == 255
    requires Alpha(img, x + 1, y + 1) == 0
    ensures MakeQuads(Rect(x, x + 1, y, y + 1))[1] == Rect(x + 1, x + 1, y, y)
    ensures ClassOf(img, MakeQuads(Rect(x, x + 1, y, y + 1))[0]) == Full
    ensures ClassOf(img, MakeQuads(Rect(x, x + 1, y, y + 1))[1]) == Full
    ensures ClassOf(img, MakeQuads(Rect(x, x + 1, y, y + 1))[2]) == Clear
    ensures ClassOf(img, MakeQuads(Rect(x, x + 1, y, y + 1))[3]) == Full
    ensures Size(Rect(x + 1, x + 1, y, y)).0 <= 1
  {
    var q := MakeQuads(Rect(x, x + 1, y, y + 1));
    assert q == [Rect(x, x, y, y), Rect(x + 1, x + 1, y, y), Rect(x + 1, x + 1, y + 1, y + 1), Rect(x, x, y + 1, y + 1)];
    PixelClass(img, x, y);
    PixelClass(img, x + 1, y);
    PixelClass(img, x + 1, y + 1);
    PixelClass(img, x, y + 1);
  }

  /** The classes of the four quadrants, in order. */
  method ClassifyQuads(img: Image, quads: seq<Rect>) returns (classes: seq<Coverage>)
    requires img.Valid() && |quads| == 4 && forall i :: 0 <= i < 4 ==> Within(img, quads[i])
    ensures |classes| == 4 && forall i :: 0 <= i < 4 ==> classes[i] == ClassOf(img, quads[i])
  {
    var c0 := Classify(img, quads[0]);
    var c1 := Classify(img, quads[1]);
    var c2 := Classify(img, quads[2]);
    var c3 := Classify(img, quads[3]);
    classes := [c0, c1, c2, c3];
  }

  /**
   * With the work stack empty, the output is pairwise disjoint and, when
   * nothing with pixels was dropped, holds exactly the opaque pixels once.
   */
  lemma TilingDone(img: Image, minSize: int, finals: seq<Rect>)
    requires img.Valid() && Tiling(img, minSize, [], finals)
    ensures forall i, j :: 0 <= i < j < |finals| ==> Disjoint(finals[i], finals[j])
    ensures minSize <= 1 ==> forall x, y :: Opaque(img, x, y) <==> Count(finals, x, y) == 1
  {
    forall i, j | 0 <= i < j < |finals|
      ensures Disjoint(finals[i], finals[j])
    {
      forall x, y
        ensures !(Covers(finals[i], x, y) && Covers(finals[j], x, y))
      {
        if Covers(finals[i], x, y) && Covers(finals[j], x, y) {
          CountTwo(finals, i, j, x, y);
        }
      }
    }
    if minSize <= 1 {
      forall x, y
        ensures Opaque(img, x, y) <==> Count(finals, x, y) == 1
      {
        if Count(finals, x, y) == 1 {
          CountedIsCovered(finals, x, y);
        }
      }
    }
  }

  /**
   * The four two-quadrant cases: the merge `m` of the first two pieces of
   * `pend` is output, then each of the other two pieces is pushed unless
   * transparent.
   */
  method PushRest(img: Image, ghost minSize: int, rects0: seq<Rect>, finals0: seq<Rect>, pend: seq<Rect>, m: Rect, cc: Coverage, cd: Coverage)
    returns (rects: seq<Rect>, finals: seq<Rect>)
    requires img.Valid() && |pend| == 4 && Within(img, m)
    requires Pending(img, minSize, rects0, finals0, pend)
    requires ClassOf(img, pend[0]) == Full && ClassOf(img, pend[1]) == Full
    requires forall x, y :: Covers(m, x, y) <==> Covers(pend[0], x, y) || Covers(pend[1], x, y)
    requires cc == ClassOf(img, pend[2]) && cd == ClassOf(img, pend[3])
    ensures finals == finals0 + [m]
    ensures rects == rects0 + (if cc != Clear then [pend[2]] else []) + (if cd != Clear then [pend[3]] else [])
    ensures Tiling(img, minSize, rects, finals)
  {
    rects, finals := rects0, finals0;
    ghost var rest := pend;
    forall x, y
      ensures Cov(m, x, y) == Cov(pend[0], x, y) + Cov(pend[1], x, y)
    {
      if Covers(pend[0], x, y) && Covers(pend[1], x, y) {
        CountCons(pend, x, y);
        CountCons(pend[1..], x, y);
      }
    }
    assert Covers(pend[0], pend[0].left, pend[0].top);
    MergeStep(img, minSize, rects, finals, rest, m);
    rest := [m] + rest[2..];
    FinalStep(img, minSize, rects, finals, rest);
    finals := finals + [m];
    rest := rest[1..];
    if cc != Clear {
      PushStep(img, minSize, rects, finals, rest);
      rects := rects + [pend[2]];
    } else {
      DropStep(img, minSize, rects, finals, rest);
    }
    rest := rest[1..];
    if cd != Clear {
      PushStep(img, minSize, rects, finals, rest);
      rects := rects + [pend[3]];
    } else {
      DropStep(img, minSize, rects, finals, rest);
    }
    rest := rest[1..];
    assert rest == [];
  }

  /** The quadrants classed `c`, in quadrant order. */
  function Classed(qs: seq<Rect>, cs: seq<Coverage>, c: Coverage): seq<Rect>
    requires |qs| == |cs|
    decreases |qs|
  {
    if |qs| == 0 then []
    else Classed(qs[..|qs| - 1], cs[..|cs| - 1], c) + (if cs[|cs| - 1] == c then [qs[|qs| - 1]] else [])
  }

  /** Classing one more quadrant appends it when it has class `c`. */
  lemma ClassedSnoc(qs: seq<Rect>, cs: seq<Coverage>, i: nat, c: Coverage)
    requires i < |qs| == |cs|
    ensures Classed(qs[..i + 1], cs[..i + 1], c) == Classed(qs[..i], cs[..i], c) + (if cs[i] == c then [qs[i]] else [])
  {
    assert qs[..i + 1][..i] == qs[..i] && cs[..i + 1][..i] == cs[..i];
  }

  /** The remaining case: each opaque quadrant is output, each mixed one pushed, in quadrant order. */
  method PushEach(img: Image, ghost minSize: int, rects0: seq<Rect>, finals0: seq<Rect>, quads: seq<Rect>, classes: seq<Coverage>)
    returns (rects: seq<Rect>, finals: seq<Rect>)
    requires img.Valid() && |quads| == 4 && |classes| == 4
    requires forall i :: 0 <= i < 4 ==> classes[i] == ClassOf(img, quads[i])
    requires Pending(img, minSize, rects0, finals0, quads)
    ensures finals == finals0 + Classed(quads, classes, Full)
    ensures rects == rects0 + Classed(quads, classes, Partial)
    ensures Tiling(img, minSize, rects, finals)
  {
    rects, finals := rects0, finals0;
    for i := 0 to 4
      invariant Pending(img, minSize, rects, finals, quads[i..])
      invariant finals == finals0 + Classed(quads[..i], classes[..i], Full)
      invariant rects == rects0 + Classed(quads[..i], classes[..i], Partial)
    {
      assert quads[i..][0] == quads[i] && quads[i..][1..] == quads[i + 1..];
      ClassedSnoc(quads, classes, i, Full);
      ClassedSnoc(quads, classes, i, Partial);
      if classes[i] == Full {
        FinalStep(img, minSize, rects, finals, quads[i..]);
        finals := finals + [quads[i]];
      } else if classes[i] != Clear {
        PushStep(img, minSize, rects, finals, quads[i..]);
        rects := rects + [quads[i]];
      } else {
        DropStep(img, minSize, rects, finals, quads[i..]);
      }
    }
    assert quads[4..] == [];
    assert quads[..4] == quads && classes[..4] == classes;
  }

  /**
   * The case analysis on the four classes of one popped rectangle, which
   * appends to the work stack and to the output; the rectangle's pixels are
   * handed on to what is appended, each at most once, and every opaque one of
   * them at least once.
   */
  method Split(img: Image, ghost minSize: int, rects0: seq<Rect>, finals0: seq<Rect>, rect: Rect, quads: seq<Rect>, classes: seq<Coverage>)
    returns (rects: seq<Rect>, finals: seq<Rect>)
    requires img.Valid() && Within(img, rect) && quads == MakeQuads(rect)
    requires |classes| == 4 && forall i :: 0 <= i < 4 ==> classes[i] == ClassOf(img, quads[i])
    requires Tiling(img, minSize, rects0 + [rect], finals0)
    ensures Tiling(img, minSize, rects, finals)
    ensures |rects0| <= |rects| && rects[..|rects0|] == rects0
    ensures Size(rect).0 <= 1 || Size(rect).1 <= 1 ==> HoldsEmpty(rects[|rects0|..])
  {
    if (classes[0] == Full && classes[3] == Full) || (classes[1] == Full && classes[2] == Full) {
      rects, finals := SplitSides(img, minSize, rects0, finals0, rect, quads, classes);
    } else if (classes[2] == Full && classes[3] == Full) || (classes[0] == Full && classes[1] == Full) {
      rects, finals := SplitRows(img, minSize, rects0, finals0, rect, quads, classes);
    } else {
      QuadsWithin(img, rect);
      StartPending(img, minSize, rects0, finals0, rect, quads);
      rects, finals := PushEach(img, minSize, rects0, finals0, quads, classes);
      if Size(rect).0 <= 1 || Size(rect).1 <= 1 {
        NarrowSplit(img, rect, classes);
        var k := if Size(rect).0 <= 1 then 1 else 2;
        ClassedHoldsEmpty(quads, classes, k);
        assert rects[|rects0|..] == Classed(quads, classes, Partial);
      }
      assert rects[..|rects0|] == rects0;
    }
  }

  /** The cases that output the whole rectangle, or the merge of its left or of its right quadrants. */
  method SplitSides(img: Image, ghost minSize: int, rects0: seq<Rect>, finals0: seq<Rect>, rect: Rect, quads: seq<Rect>, classes: seq<Coverage>)
    returns (rects: seq<Rect>, finals: seq<Rect>)
    requires img.Valid() && Within(img, rect) && quads == MakeQuads(rect)
    requires |classes| == 4 && forall i :: 0 <= i < 4 ==> classes[i] == ClassOf(img, quads[i])
    requires Tiling(img, minSize, rects0 + [rect], finals0)
    requires (classes[0] == Full && classes[3] == Full) || (classes[1] == Full && classes[2] == Full)
    ensures Tiling(img, minSize, rects, finals)
    ensures |rects0| <= |rects| && rects[..|rects0|] == rects0
    ensures Size(rect).0 <= 1 || Size(rect).1 <= 1 ==> HoldsEmpty(rects[|rects0|..])
  {
    ghost var narrow := Size(rect).0 <= 1 || Size(rect).1 <= 1;
    if narrow {
      NarrowSplit(img, rect, classes);
    }
    if classes[0] == Full && classes[1] == Full && classes[2] == Full && classes[3] == Full {
      rects, finals := SplitWhole(img, minSize, rects0, finals0, rect, quads, classes);
    } else if classes[0] == Full && classes[3] == Full {
      rects, finals := SplitLeft(img, minSize, rects0, finals0, rect, quads, classes);
      if narrow {
        assert rects[|rects0|..][0] == quads[1];
      }
    } else {
      rects, finals := SplitRight(img, minSize, rects0, finals0, rect, quads, classes);
    }
    assert rects[..|rects0|] == rects0;
  }

  /** The cases that output the merge of the bottom or of the top quadrants. */
  method SplitRows(img: Image, ghost minSize: int, rects0: seq<Rect>, finals0: seq<Rect>, rect: Rect, quads: seq<Rect>, classes: seq<Coverage>)
    returns (rects: seq<Rect>, finals: seq<Rect>)
    requires img.Valid() && Within(img, rect) && quads == MakeQuads(rect)
    requires |classes| == 4 && forall i :: 0 <= i < 4 ==> classes[i] == ClassOf(img, quads[i])
    requires Tiling(img, minSize, rects0 + [rect], finals0)
    requires (classes[2] == Full && classes[3] == Full) || (classes[0] == Full && classes[1] == Full)
    ensures Tiling(img, minSize, rects, finals)
    ensures |rects0| <= |rects| && rects[..|rects0|] == rects0
    ensures Size(rect).0 <= 1 || Size(rect).1 <= 1 ==> HoldsEmpty(rects[|rects0|..])
  {
    ghost var narrow := Size(rect).0 <= 1 || Size(rect).1 <= 1;
    if narrow {
      NarrowSplit(img, rect, classes);
    }
    if classes[2] == Full && classes[3] == Full {
      rects, finals := SplitBottom(img, minSize, rects0, finals0, rect, quads, classes);
    } else {
      rects, finals := SplitTop(img, minSize, rects0, finals0, rect, quads, classes);
      if narrow {
        assert rects[|rects0|..][0] == quads[2];
      }
    }
    assert rects[..|rects0|] == rects0;
  }

  /**
   * The classes of a narrow rectangle's quadrants: never four opaque, nor
   * the right or bottom pair, and in the left-pair and top-pair cases the
   * first quadrant pushed back is an empty one (classed `Partial`).
   */
  lemma NarrowSplit(img: Image, rect: Rect, classes: seq<Coverage>)
    requires img.Valid() && WellFormed(rect) && |classes| == 4
    requires forall i :: 0 <= i < 4 ==> classes[i] == ClassOf(img, MakeQuads(rect)[i])
    requires Size(rect).0 <= 1 || Size(rect).1 <= 1
    ensures !(classes[1] == Full && classes[2] == Full) && !(classes[2] == Full && classes[3] == Full)
    ensures classes[0] == Full && classes[3] == Full ==> classes[1] == Partial && IsEmpty(MakeQuads(rect)[1])
    ensures classes[0] == Full && classes[1] == Full ==> classes[2] == Partial && IsEmpty(MakeQuads(rect)[2])
    ensures Size(rect).0 <= 1 ==> classes[1] == Partial && IsEmpty(MakeQuads(rect)[1])
    ensures Size(rect).0 > 1 ==> classes[2] == Partial && IsEmpty(MakeQuads(rect)[2])
  {
    NarrowQuads(rect);
  }

  /** An empty quadrant classed `Partial` is among the quadrants pushed. */
  lemma {:induction false} ClassedHoldsEmpty(qs: seq<Rect>, cs: seq<Coverage>, k: nat)
    requires k < |qs| == |cs| && cs[k] == Partial && IsEmpty(qs[k])
    ensures HoldsEmpty(Classed(qs, cs, Partial))
    decreases |qs|
  {
    var n := |qs| - 1;
    if k == n {
      assert Classed(qs, cs, Partial)[|Classed(qs, cs, Partial)| - 1] == qs[k];
    } else {
      ClassedHoldsEmpty(qs[..n], cs[..n], k);
      var pre := Classed(qs[..n], cs[..n], Partial);
      var i :| 0 <= i < |pre| && IsEmpty(pre[i]);
      assert Classed(qs, cs, Partial)[i] == pre[i];
    }
  }

  /** All four quadrants opaque: the rectangle itself is output. */
  method SplitWhole(img: Image, ghost minSize: int, rects0: seq<Rect>, finals0: seq<Rect>, rect: Rect, quads: seq<Rect>, classes: seq<Coverage>)
    returns (rects: seq<Rect>, finals: seq<Rect>)
    requires img.Valid() && Within(img, rect) && quads == MakeQuads(rect)
    requires |classes| == 4 && forall i :: 0 <= i < 4 ==> classes[i] == ClassOf(img, quads[i])
    requires Tiling(img, minSize, rects0 + [rect], finals0)
    requires classes == [Full, Full, Full, Full]
    ensures rects == rects0 && finals == finals0 + [rect]
    ensures Tiling(img, minSize, rects, finals)
  {
    rects, finals := rects0, finals0;
    QuadsWithin(img, rect);
    StartWhole(img, minSize, rects0, finals0, rect);
    forall i | 0 <= i < 4 ensures AllAlpha(img, quads[i], 255) {
      assert ClassOf(img, quads[i]) == Full;
    }
    forall x, y | Covers(rect, x, y) ensures InImage(img, x, y) && Alpha(img, x, y) == 255 {
      assert Cov(quads[0], x, y) + Cov(quads[1], x, y) + Cov(quads[2], x, y) + Cov(quads[3], x, y) == 1;
      if Covers(quads[0], x, y) {
      } else if Covers(quads[1], x, y) {
      } else if Covers(quads[2], x, y) {
      } else {
        assert Covers(quads[3], x, y);
      }
    }
    assert AllAlpha(img, rect, 255);
    FinalStep(img, minSize, rects, finals, [rect]);
    finals := finals + [rect];
    assert [rect][1..] == [];
  }

  /** The two left quadrants opaque: their merge is output, the right ones pushed unless transparent. */
  method SplitLeft(img: Image, ghost minSize: int, rects0: seq<Rect>, finals0: seq<Rect>, rect: Rect, quads: seq<Rect>, classes: seq<Coverage>)
    returns (rects: seq<Rect>, finals: seq<Rect>)
    requires img.Valid() && Within(img, rect) && quads == MakeQuads(rect)
    requires |classes| == 4 && forall i :: 0 <= i < 4 ==> classes[i] == ClassOf(img, quads[i])
    requires Tiling(img, minSize, rects0 + [rect], finals0)
    requires classes[0] == Full && classes[3] == Full
    ensures finals == finals0 + [MergeV([quads[0], quads[3]]).value]
    ensures rects == rects0 + (if classes[1] != Clear then [quads[1]] else [])
      + (if classes[2] != Clear then [quads[2]] else [])
    ensures Tiling(img, minSize, rects, finals)
  {
    var q0, q1, q2, q3 := quads[0], quads[1], quads[2], quads[3];
    QuadsWithin(img, rect);
    StartPending(img, minSize, rects0, finals0, rect, [q0, q3, q1, q2]);
    MergeVAdjacent(q0, q3);
    rects, finals := PushRest(img, minSize, rects0, finals0, [q0, q3, q1, q2], MergeV([q0, q3]).value, classes[1], classes[2]);
  }

  /** The two right quadrants opaque: their merge is output, the left ones pushed unless transparent. */
  method SplitRight(img: Image, ghost minSize: int, rects0: seq<Rect>, finals0: seq<Rect>, rect: Rect, quads: seq<Rect>, classes: seq<Coverage>)
    returns (rects: seq<Rect>, finals: seq<Rect>)
    requires img.Valid() && Within(img, rect) && quads == MakeQuads(rect)
    requires |classes| == 4 && forall i :: 0 <= i < 4 ==> classes[i] == ClassOf(img, quads[i])
    requires Tiling(img, minSize, rects0 + [rect], finals0)
    requires classes[1] == Full && classes[2] == Full
    ensures finals == finals0 + [MergeV([quads[1], quads[2]]).value]
    ensures rects == rects0 + (if classes[0] != Clear then [quads[0]] else [])
      + (if classes[3] != Clear then [quads[3]] else [])
    ensures Tiling(img, minSize, rects, finals)
  {
    var q0, q1, q2, q3 := quads[0], quads[1], quads[2], quads[3];
    QuadsWithin(img, rect);
    StartPending(img, minSize, rects0, finals0, rect, [q1, q2, q0, q3]);
    MergeVAdjacent(q1, q2);
    rects, finals := PushRest(img, minSize, rects0, finals0, [q1, q2, q0, q3], MergeV([q1, q2]).value, classes[0], classes[3]);
  }

  /** The two bottom quadrants opaque: their merge is output, the top ones pushed unless transparent. */
  method SplitBottom(img: Image, ghost minSize: int, rects0: seq<Rect>, finals0: seq<Rect>, rect: Rect, quads: seq<Rect>, classes: seq<Coverage>)
    returns (rects: seq<Rect>, finals: seq<Rect>)
    requires img.Valid() && Within(img, rect) && quads == MakeQuads(rect)
    requires |classes| == 4 && forall i :: 0 <= i < 4 ==> classes[i] == ClassOf(img, quads[i])
    requires Tiling(img, minSize, rects0 + [rect], finals0)
    requires classes[2] == Full && classes[3] == Full
    ensures finals == finals0 + [MergeH([quads[2], quads[3]]).value]
    ensures rects == rects0 + (if classes[0] != Clear then [quads[0]] else [])
      + (if classes[1] != Clear then [quads[1]] else [])
    ensures Tiling(img, minSize, rects, finals)
  {
    var q0, q1, q2, q3 := quads[0], quads[1], quads[2], quads[3];
    QuadsWithin(img, rect);
    StartPending(img, minSize, rects0, finals0, rect, [q2, q3, q0, q1]);
    MergeHAdjacent(q2, q3);
    rects, finals := PushRest(img, minSize, rects0, finals0, [q2, q3, q0, q1], MergeH([q2, q3]).value, classes[0], classes[1]);
  }

  /** The two top quadrants opaque: their merge is output, the bottom ones pushed unless transparent. */
  method SplitTop(img: Image, ghost minSize: int, rects0: seq<Rect>, finals0: seq<Rect>, rect: Rect, quads: seq<Rect>, classes: seq<Coverage>)
    returns (rects: seq<Rect>, finals: seq<Rect>)
    requires img.Valid() && Within(img, rect) && quads == MakeQuads(rect)
    requires |classes| == 4 && forall i :: 0 <= i < 4 ==> classes[i] == ClassOf(img, quads[i])
    requires Tiling(img, minSize, rects0 + [rect], finals0)
    requires classes[0] == Full && classes[1] == Full
    ensures finals == finals0 + [MergeH([quads[0], quads[1]]).value]
    ensures rects == rects0 + (if classes[2] != Clear then [quads[2]] else [])
      + (if classes[3] != Clear then [quads[3]] else [])
    ensures Tiling(img, minSize, rects, finals)
  {
    var q0, q1, q2, q3 := quads[0], quads[1], quads[2], quads[3];
    QuadsWithin(img, rect);
    StartPending(img, minSize, rects0, finals0, rect, [q0, q1, q2, q3]);
    MergeHAdjacent(q0, q1);
    rects, finals := PushRest(img, minSize, rects0, finals0, [q0, q1, q2, q3], MergeH([q0, q1]).value, classes[2], classes[3]);
  }
}
