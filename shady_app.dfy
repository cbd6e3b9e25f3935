/**
 * The shape list of Shady Business and the reducers its buttons, editors
 * and drags apply to it, with the artboard reset and the image upload.
 */
module ShadyApp {
  import opened Wrappers
  import opened Shapes
  import ShapeUnits

  // ---------------------------------------------------------------------
  // Partial updates

  /** `Partial<Shape>`: the fields an update overwrites, the rest None. */
  datatype Patch = Patch(shapeType: Option<ShapeType>, x: Option<real>, y: Option<real>,
                         width: Option<real>, depth: Option<real>, height: Option<real>,
                         rotation: Option<real>, id: Option<int>, src: Option<string>)

  function Pick<T>(update: Option<T>, current: T): T {
    if update.Some? then update.value else current
  }

  /** `{ ...shape, ...patch }`: each field the patch carries replaces the shape's. */
  function Spread(s: Shape, p: Patch): (r: Shape)
    ensures p == Patch(None, None, None, None, None, None, None, None, None) ==> r == s
    ensures p.shapeType.Some? ==> r.shapeType == p.shapeType.value
    ensures p.shapeType.None? ==> r.shapeType == s.shapeType
    ensures p.x.Some? ==> r.x == p.x.value
    ensures p.x.None? ==> r.x == s.x
    ensures p.y.Some? ==> r.y == p.y.value
    ensures p.y.None? ==> r.y == s.y
    ensures p.width.Some? ==> r.width == p.width.value
    ensures p.width.None? ==> r.width == s.width
    ensures p.depth.Some? ==> r.depth == p.depth.value
    ensures p.depth.None? ==> r.depth == s.depth
    ensures p.height.Some? ==> r.height == p.height
    ensures p.height.None? ==> r.height == s.height
    ensures p.rotation.Some? ==> r.rotation == p.rotation.value
    ensures p.rotation.None? ==> r.rotation == s.rotation
    ensures p.id.Some? ==> r.id == p.id.value
    ensures p.id.None? ==> r.id == s.id
    ensures p.src.Some? ==> r.src == p.src
    ensures p.src.None? ==> r.src == s.src
  {
    Shape(Pick(p.shapeType, s.shapeType), Pick(p.x, s.x), Pick(p.y, s.y), Pick(p.width, s.width),
          Pick(p.depth, s.depth), if p.height.Some? then p.height else s.height,
          Pick(p.rotation, s.rotation), Pick(p.id, s.id), if p.src.Some? then p.src else s.src)
  }

  /** Spreading the same patch twice is spreading it once. */
  lemma SpreadIdempotent(s: Shape, p: Patch)
    ensures Spread(Spread(s, p), p) == Spread(s, p)
  {
  }

  // ---------------------------------------------------------------------
  // onChangeShape and the editors' onUpdate

  /** `onChangeShape`: the patch is spread over every shape with the edited shape's id. */
  function ChangeShape(shapes: seq<Shape>, patch: Patch, shape: Shape): (r: seq<Shape>)
    ensures |r| == |shapes|
    ensures forall i :: 0 <= i < |shapes| ==>
      r[i] == if shapes[i].id == shape.id then Spread(shapes[i], patch) else shapes[i]
  {
    seq(|shapes|, i requires 0 <= i < |shapes| =>
      if shapes[i].id == shape.id then Spread(shapes[i], patch) else shapes[i])
  }

  /** Shapes with other ids are untouched, and an edit for an id no shape has changes nothing. */
  lemma ChangeShapeOthers(shapes: seq<Shape>, patch: Patch, shape: Shape)
    ensures forall i :: 0 <= i < |shapes| && shapes[i].id != shape.id ==> ChangeShape(shapes, patch, shape)[i] == shapes[i]
    ensures (forall i :: 0 <= i < |shapes| ==> shapes[i].id != shape.id) ==> ChangeShape(shapes, patch, shape) == shapes
  {
  }

  /** A patch that keeps the id can be applied again without effect. */
  lemma ChangeShapeIdempotent(shapes: seq<Shape>, patch: Patch, shape: Shape)
    requires patch.id.None?
    ensures ChangeShape(ChangeShape(shapes, patch, shape), patch, shape) == ChangeShape(shapes, patch, shape)
  {
    var once := ChangeShape(shapes, patch, shape);
    var twice := ChangeShape(once, patch, shape);
    forall i | 0 <= i < |shapes| ensures twice[i] == once[i] {
      SpreadIdempotent(shapes[i], patch);
    }
  }

  /** The rectangle and house editors' `onUpdate`: the edited shape replaces every shape with its id. */
  function EditorUpdate(shapes: seq<Shape>, edited: Shape): (r: seq<Shape>)
    ensures |r| == |shapes|
    ensures forall i :: 0 <= i < |shapes| ==> r[i] == if shapes[i].id == edited.id then edited else shapes[i]
  {
    seq(|shapes|, i requires 0 <= i < |shapes| => if shapes[i].id == edited.id then edited else shapes[i])
  }

  /** After an editor update, the edited shape is found under its id exactly when the id was present. */
  lemma EditorUpdateFinds(shapes: seq<Shape>, edited: Shape)
    ensures FindShape(EditorUpdate(shapes, edited), Some(edited.id)) ==
      (if FindShape(shapes, Some(edited.id)).Some? then Some(edited) else None)
  {
    var r := EditorUpdate(shapes, edited);
    FindShapeSpec(shapes, Some(edited.id));
    FindShapeSpec(r, Some(edited.id));
    if FindShape(shapes, Some(edited.id)).Some? {
      var i :| 0 <= i < |shapes| && shapes[i].id == edited.id;
      assert r[i] == edited;
    }
  }

  // ---------------------------------------------------------------------
  // The active shape

  /** `shapes.find(s => s.id === active)`: the first shape with the active id, if any. */
  function FindShape(shapes: seq<Shape>, active: Option<int>): (r: Option<Shape>)
    ensures r.Some? ==> active.Some? && r.value.id == active.value && r.value in shapes
    ensures r.None? <==> active.None? || forall s :: s in shapes ==> s.id != active.value
  {
    if active.None? || |shapes| == 0 then None
    else if shapes[0].id == active.value then Some(shapes[0])
    else
      assert forall s :: s in shapes ==> s == shapes[0] || s in shapes[1..];
      FindShape(shapes[1..], active)
  }

  /** The active shape has the active id and is the first with it; None means no shape has it. */
  lemma {:induction false} FindShapeSpec(shapes: seq<Shape>, active: Option<int>)
    ensures var r := FindShape(shapes, active);
      (r.Some? ==> (active.Some? && r.value.id == active.value &&
                    exists i :: 0 <= i < |shapes| && shapes[i] == r.value && forall j :: 0 <= j < i ==> shapes[j].id != active.value)) &&
      (r.None? ==> active.None? || forall i :: 0 <= i < |shapes| ==> shapes[i].id != active.value)
  {
    if active.Some? && |shapes| > 0 && shapes[0].id != active.value {
      FindShapeSpec(shapes[1..], active);
      var r := FindShape(shapes, active);
      if r.Some? {
        var i :| 0 <= i < |shapes[1..]| && shapes[1..][i] == r.value && forall j :: 0 <= j < i ==> shapes[1..][j].id != active.value;
        assert shapes[i + 1] == r.value;
        assert forall j :: 0 <= j < i + 1 ==> shapes[j].id != active.value by {
          forall j | 0 <= j < i + 1 ensures shapes[j].id != active.value {
            if j > 0 { assert shapes[j] == shapes[1..][j - 1]; }
          }
        }
      } else {
        assert forall i :: 0 <= i < |shapes| ==> shapes[i].id != active.value by {
          forall i | 0 <= i < |shapes| ensures shapes[i].id != active.value {
            if i > 0 { assert shapes[i] == shapes[1..][i - 1]; }
          }
        }
      }
    } else if active.Some? && |shapes| > 0 {
      assert shapes[0] == FindShape(shapes, active).value;
    }
  }

  // ---------------------------------------------------------------------
  // Duplicate, Delete, Add

  /**
   * Duplicate: a copy of the active shape with a fresh id (passed in) is
   * appended; without an active shape nothing happens.
   */
  function Duplicate(shapes: seq<Shape>, active: Option<Shape>, newId: int): (r: seq<Shape>)
    ensures active.None? ==> r == shapes
    ensures active.Some? ==> (|r| == |shapes| + 1 && r[..|shapes|] == shapes &&
                              r[|shapes|].id == newId && r[|shapes|].(id := active.value.id) == active.value)
  {
    if active.None? then shapes else shapes + [active.value.(id := newId)]
  }

  /** The shapes that do not have the given id, in order. */
  function WithoutId(shapes: seq<Shape>, id: int): (r: seq<Shape>)
    ensures |r| <= |shapes|
  {
    if |shapes| == 0 then []
    else if shapes[0].id == id then WithoutId(shapes[1..], id)
    else [shapes[0]] + WithoutId(shapes[1..], id)
  }

  /** Delete: every shape with the active shape's id goes; without an active shape nothing happens. */
  function Delete(shapes: seq<Shape>, active: Option<Shape>): (r: seq<Shape>)
    ensures active.None? ==> r == shapes
    ensures active.Some? ==> forall s :: s in r <==> s in shapes && s.id != active.value.id
  {
    if active.None? then shapes
    else
      WithoutIdMembers(shapes, active.value.id);
      WithoutId(shapes, active.value.id)
  }

  /** What is left is exactly the shapes with other ids: none with the id, and every other kept. */
  lemma {:induction false} WithoutIdMembers(shapes: seq<Shape>, id: int)
    ensures forall s :: s in WithoutId(shapes, id) <==> s in shapes && s.id != id
  {
    if |shapes| > 0 {
      WithoutIdMembers(shapes[1..], id);
      assert shapes == [shapes[0]] + shapes[1..];
    }
  }

  /** Removing an id no shape has keeps the list as it is. */
  lemma {:induction false} WithoutIdAbsent(shapes: seq<Shape>, id: int)
    requires forall i :: 0 <= i < |shapes| ==> shapes[i].id != id
    ensures WithoutId(shapes, id) == shapes
  {
    if |shapes| > 0 {
      WithoutIdAbsent(shapes[1..], id);
      assert shapes == [shapes[0]] + shapes[1..];
    }
  }

  /** Dropping the head of a concatenation whose left part is non-empty. */
  lemma AppendTail<T>(a: seq<T>, b: seq<T>)
    requires |a| > 0
    ensures (a + b)[0] == a[0] && (a + b)[1..] == a[1..] + b
  {
  }

  /** Removal distributes over concatenation, so the order of the kept shapes is the original. */
  lemma {:induction false} WithoutIdAppend(a: seq<Shape>, b: seq<Shape>, id: int)
    ensures WithoutId(a + b, id) == WithoutId(a, id) + WithoutId(b, id)
  {
    if |a| == 0 {
      assert a + b == b;
    } else {
      var head := if a[0].id == id then [] else [a[0]];
      WithoutIdAppend(a[1..], b, id);
      AppendTail(a, b);
      assert WithoutId(a + b, id) == head + WithoutId(a[1..] + b, id);
      assert WithoutId(a, id) == head + WithoutId(a[1..], id);
      assert head + (WithoutId(a[1..], id) + WithoutId(b, id)) == (head + WithoutId(a[1..], id)) + WithoutId(b, id);
    }
  }

  /** Deleting a duplicate removes the copy and every other shape with the original's id, keeping the rest. */
  lemma DuplicateThenDeleteCopy(shapes: seq<Shape>, active: Shape, newId: int)
    requires forall i :: 0 <= i < |shapes| ==> shapes[i].id != newId
    ensures Delete(Duplicate(shapes, Some(active), newId), Some(active.(id := newId))) == shapes
  {
    WithoutIdAppend(shapes, [active.(id := newId)], newId);
    WithoutIdAbsent(shapes, newId);
    assert WithoutId([active.(id := newId)], newId) == [];
  }

  /** Add rectangle: one default rectangle with the given id is appended. */
  function AddRect(shapes: seq<Shape>, id: int): (r: seq<Shape>)
    ensures |r| == |shapes| + 1 && r[..|shapes|] == shapes && r[|shapes|] == MakeRect(id)
  {
    shapes + [MakeRect(id)]
  }

  /** Add house: one default house with the given id is appended. */
  function AddHouse(shapes: seq<Shape>, id: int): (r: seq<Shape>)
    ensures |r| == |shapes| + 1 && r[..|shapes|] == shapes && r[|shapes|] == MakeHouse(id)
  {
    shapes + [MakeHouse(id)]
  }

  // ---------------------------------------------------------------------
  // The image / non-image split

  predicate IsImage(s: Shape) {
    s.shapeType == ImageType
  }

  /** `shapes.filter(s => s.type !== "image")`: the prisms and houses, drawn on the artboard. */
  function NonImages(shapes: seq<Shape>): (r: seq<Shape>)
    ensures forall s :: s in r ==> !IsImage(s) && s in shapes
  {
    if |shapes| == 0 then []
    else (if IsImage(shapes[0]) then [] else [shapes[0]]) + NonImages(shapes[1..])
  }

  /** `shapes.filter(s => s.type === "image")`: the images, drawn beneath. */
  function Images(shapes: seq<Shape>): (r: seq<Shape>)
    ensures forall s :: s in r ==> IsImage(s) && s in shapes
  {
    if |shapes| == 0 then []
    else (if IsImage(shapes[0]) then [shapes[0]] else []) + Images(shapes[1..])
  }

  /** Together the two lists hold every shape exactly as often as the shapes do. */
  lemma {:induction false} PartitionByType(shapes: seq<Shape>)
    ensures multiset(Images(shapes)) + multiset(NonImages(shapes)) == multiset(shapes)
  {
    if |shapes| > 0 {
      PartitionByType(shapes[1..]);
      assert shapes == [shapes[0]] + shapes[1..];
    }
  }

  // ---------------------------------------------------------------------
  // Upload image, Reset

  /**
   * The size an uploaded image is placed at: scaled so that its longer side
   * is 10 units. An image with no extent would divide by zero, giving None.
   */
  function UploadSize(width: real, height: real): (r: Option<(real, real)>)
    requires width >= 0.0 && height >= 0.0
    ensures r.None? <==> width == 0.0 && height == 0.0
  {
    var longer := if width >= height then width else height;
    if longer == 0.0 then None
    else var divisor := 10.0 / longer; Some((width * divisor, height * divisor))
  }

  /** The longer side becomes 10, and the aspect ratio is kept. */
  lemma UploadSizeProps(width: real, height: real)
    requires width >= 0.0 && height >= 0.0 && (width > 0.0 || height > 0.0)
    ensures var (w, h) := UploadSize(width, height).value;
      (if w >= h then w else h) == 10.0 && w * height == h * width && (width >= height <==> w >= h)
  {
    var longer := if width >= height then width else height;
    var d := 10.0 / longer;
    assert longer * d == 10.0;
    assert d > 0.0;
    assert width * d * height == height * d * width;
    if width >= height {
      assert width * d >= height * d;
    } else {
      assert width * d < height * d;
    }
  }

  /** Upload image: the image, scaled, appended with the given id; None for an image with no extent. */
  function Upload(shapes: seq<Shape>, src: string, width: real, height: real, id: int): (r: Option<seq<Shape>>)
    requires width >= 0.0 && height >= 0.0
    ensures r.None? <==> width == 0.0 && height == 0.0
    ensures r.Some? ==> (|r.value| == |shapes| + 1 && r.value[..|shapes|] == shapes &&
                         IsImage(r.value[|shapes|]) && r.value[|shapes|].src == Some(src))
    ensures r.Some? ==> r.value[|shapes|] == MakeImage(src, UploadSize(width, height).value.0, UploadSize(width, height).value.1, id)
    ensures r.Some? ==> var img := r.value[|shapes|];
      && img.id == id
      && (if img.width >= img.depth then img.width else img.depth) == 10.0
      && img.width * height == img.depth * width
  {
    var size := UploadSize(width, height);
    if size.None? then None
    else
      UploadSizeProps(width, height);
      Some(shapes + [MakeImage(src, size.value.0, size.value.1, id)])
  }

  /**
   * Reset: the shapes become one default rectangle (its id passed in) and
   * the view pans back to the origin, keeping its size and zoom.
   */
  function Reset(pos: ShapeUnits.ArtboardPosition, id: int): (r: (seq<Shape>, ShapeUnits.ArtboardPosition))
    ensures r.0 == [MakeRect(id)]
    ensures r.1.offset == Vec2(0.0, 0.0)
    ensures r.1.pixelSize == pos.pixelSize && r.1.unitsPerPixel == pos.unitsPerPixel
  {
    ([MakeRect(id)], pos.(offset := Vec2(0.0, 0.0)))
  }

  /** After a reset the artboard's top-left pixel is the world origin. */
  lemma ResetShowsOrigin(pos: ShapeUnits.ArtboardPosition, id: int)
    requires pos.unitsPerPixel != 0.0
    ensures ShapeUnits.FromPx(Vec2(0.0, 0.0), Reset(pos, id).1) == Vec2(0.0, 0.0)
  {
    ShapeUnits.OriginIsOffset(Reset(pos, id).1);
  }
}
