/**
 * Conversion between artboard pixels and world units, and the record a
 * mouse or touch press on a shape's handle starts a drag with.
 */
module ShapeUnits {
  import opened Wrappers
  import opened Shapes

  datatype Size = Size(width: real, height: real)

  /** Where the artboard looks: the world point at pixel (0, 0), the view's size, the zoom. */
  datatype ArtboardPosition = ArtboardPosition(offset: Vec2, pixelSize: Size, unitsPerPixel: real)

  /** `fromPx`: pixels to world units, scaled and, unless `noOffset`, shifted by the offset. */
  function FromPx(pix: Vec2, pos: ArtboardPosition, noOffset: bool := false): (w: Vec2)
    ensures noOffset ==> w == Vec2(pix.x * pos.unitsPerPixel, pix.y * pos.unitsPerPixel)
  {
    Vec2(pix.x * pos.unitsPerPixel + (if noOffset then 0.0 else pos.offset.x),
         pix.y * pos.unitsPerPixel + (if noOffset then 0.0 else pos.offset.y))
  }

  /**
   * `toPx`: world units to pixels, the inverse of `fromPx`. A zero scale
   * would divide by zero (a non-finite pixel), which callers never ask for.
   */
  function ToPx(w: Vec2, pos: ArtboardPosition, noOffset: bool := false): (pix: Vec2)
    requires pos.unitsPerPixel != 0.0
    ensures noOffset ==> pix == Vec2(w.x / pos.unitsPerPixel, w.y / pos.unitsPerPixel)
  {
    Vec2((w.x - (if noOffset then 0.0 else pos.offset.x)) / pos.unitsPerPixel,
         (w.y - (if noOffset then 0.0 else pos.offset.y)) / pos.unitsPerPixel)
  }

  /** Pixels to world units and back is the identity. */
  lemma ToFromPx(pix: Vec2, pos: ArtboardPosition, noOffset: bool)
    requires pos.unitsPerPixel != 0.0
    ensures ToPx(FromPx(pix, pos, noOffset), pos, noOffset) == pix
  {
    var u := pos.unitsPerPixel;
    assert (pix.x * u) / u == pix.x && (pix.y * u) / u == pix.y;
  }

  /** World units to pixels and back is the identity. */
  lemma FromToPx(w: Vec2, pos: ArtboardPosition, noOffset: bool)
    requires pos.unitsPerPixel != 0.0
    ensures FromPx(ToPx(w, pos, noOffset), pos, noOffset) == w
  {
    var u := pos.unitsPerPixel;
    var dx := w.x - (if noOffset then 0.0 else pos.offset.x);
    var dy := w.y - (if noOffset then 0.0 else pos.offset.y);
    assert (dx / u) * u == dx && (dy / u) * u == dy;
  }

  /** The artboard's top-left pixel is its offset, and the offset is at pixel (0, 0). */
  lemma OriginIsOffset(pos: ArtboardPosition)
    requires pos.unitsPerPixel != 0.0
    ensures FromPx(Vec2(0.0, 0.0), pos) == pos.offset
    ensures ToPx(pos.offset, pos) == Vec2(0.0, 0.0)
  {
  }

  /** Without the offset, conversion commutes with a shift: the difference of two points is converted alone. */
  lemma FromPxShift(a: Vec2, b: Vec2, pos: ArtboardPosition)
    ensures FromPx(a, pos).x - FromPx(b, pos).x == FromPx(Vec2(a.x - b.x, a.y - b.y), pos, true).x
    ensures FromPx(a, pos).y - FromPx(b, pos).y == FromPx(Vec2(a.x - b.x, a.y - b.y), pos, true).y
  {
    var u := pos.unitsPerPixel;
    assert a.x * u - b.x * u == (a.x - b.x) * u;
    assert a.y * u - b.y * u == (a.y - b.y) * u;
  }

  // ---------------------------------------------------------------------
  // makeMouseDown

  /** One point of contact of a touch event. */
  datatype Touch = Touch(clientX: real, clientY: real)

  /**
   * A mouse or touch event as `makeMouseDown` reads it: a coordinate that
   * is absent (a touch event has none) is None, and so is a missing list
   * of touches (a mouse event has none).
   */
  datatype PressEvent = PressEvent(clientX: Option<real>, clientY: Option<real>, touches: Option<seq<Touch>>)

  datatype Handle = Translate | Rotate | Scale

  /**
   * The drag record: press position in pixels (None where the event gave
   * no number), the angle from the shape's centre to it (None when it is
   * not a number), the shape, the handle and whether to keep the aspect.
   */
  datatype MouseDownShape = MouseDownShape(x: Option<real>, y: Option<real>, rot: Option<real>,
                                           shape: Shape, handle: Handle, preserveAspect: bool)

  datatype Axis = X | Y

  function TouchCoordinate(t: Touch, axis: Axis): real {
    match axis
    case X => t.clientX
    case Y => t.clientY
  }

  /** JavaScript falsiness of a coordinate: missing, or zero. */
  predicate Falsy(c: Option<real>) {
    c.None? || c.value == 0.0
  }

  /**
   * The coordinate the press is recorded at, for one axis: the event's own,
   * unless it is falsy and the event lists touches, when it is the first
   * touch's; reading a touch from an empty list is a TypeError.
   */
  function ChooseCoordinate(own: Option<real>, touches: Option<seq<Touch>>, axis: Axis): (r: Result<Option<real>, string>)
    ensures !Falsy(own) ==> r == Success(own)
    ensures touches.None? ==> r == Success(own)
    ensures Falsy(own) && touches.Some? && |touches.value| > 0 ==> r == Success(Some(TouchCoordinate(touches.value[0], axis)))
    ensures r.Failure? <==> Falsy(own) && touches.Some? && |touches.value| == 0
  {
    if Falsy(own) && touches.Some? then
      if |touches.value| == 0 then Failure("Cannot read properties of undefined")
      else Success(Some(TouchCoordinate(touches.value[0], axis)))
    else Success(own)
  }

  /**
   * `makeMouseDown`: record the press on `shape`'s `handle`. `atan2` is the
   * arctangent of the offset from the shape's centre in pixels, passed in.
   */
  function MakeMouseDown(e: PressEvent, shape: Shape, handle: Handle, pos: ArtboardPosition,
                         atan2: (real, real) -> real, preserveAspect: bool := false): (r: Result<MouseDownShape, string>)
    requires pos.unitsPerPixel != 0.0
    ensures r.Failure? <==> e.touches.Some? && |e.touches.value| == 0 && (Falsy(e.clientX) || Falsy(e.clientY))
    ensures r.Success? ==> r.value.shape == shape && r.value.handle == handle && r.value.preserveAspect == preserveAspect
  {
    var centre := ToPx(Vec2(shape.x, shape.y), pos);
    var cx := ChooseCoordinate(e.clientX, e.touches, X);
    var cy := ChooseCoordinate(e.clientY, e.touches, Y);
    if cx.Failure? then Failure(cx.error)
    else if cy.Failure? then Failure(cy.error)
    else
      var rot := if cx.value.Some? && cy.value.Some?
                 then Some(atan2(cy.value.value - centre.y, cx.value.value - centre.x))
                 else None;
      Success(MouseDownShape(cx.value, cy.value, rot, shape, handle, preserveAspect))
  }

  /** A mouse event (no touches) is recorded at its own coordinates, even at 0. */
  lemma MouseKeepsCoordinates(x: real, y: real, shape: Shape, handle: Handle, pos: ArtboardPosition,
                              atan2: (real, real) -> real)
    requires pos.unitsPerPixel != 0.0
    ensures var r := MakeMouseDown(PressEvent(Some(x), Some(y), None), shape, handle, pos, atan2);
      var c := ToPx(Vec2(shape.x, shape.y), pos);
      r == Success(MouseDownShape(Some(x), Some(y), Some(atan2(y - c.y, x - c.x)), shape, handle, false))
  {
  }

  /**
   * A zero coordinate counts as missing: with touches listed, an event at
   * x = 0 is recorded at the first touch's x, while a nonzero y is kept.
   */
  lemma ZeroFallsBackToTouch(y: real, t: Touch, rest: seq<Touch>, shape: Shape, handle: Handle,
                             pos: ArtboardPosition, atan2: (real, real) -> real)
    requires pos.unitsPerPixel != 0.0 && y != 0.0
    ensures var r := MakeMouseDown(PressEvent(Some(0.0), Some(y), Some([t] + rest)), shape, handle, pos, atan2);
      r.Success? && r.value.x == Some(t.clientX) && r.value.y == Some(y)
  {
  }

  /** A touch event (no coordinates of its own) is recorded at its first touch. */
  lemma TouchUsesFirstTouch(t: Touch, rest: seq<Touch>, shape: Shape, handle: Handle,
                            pos: ArtboardPosition, atan2: (real, real) -> real)
    requires pos.unitsPerPixel != 0.0
    ensures var r := MakeMouseDown(PressEvent(None, None, Some([t] + rest)), shape, handle, pos, atan2);
      r.Success? && r.value.x == Some(t.clientX) && r.value.y == Some(t.clientY) && r.value.rot.Some?
  {
  }
}
