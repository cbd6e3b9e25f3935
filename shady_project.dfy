/**
 * The shadows of prisms and houses: their corners lifted to their heights
 * and projected onto the ground along the direction of the sun, one
 * four-cornered face at a time.
 */
module Projection {
  import opened Wrappers
  import opened Shapes

  /** Four ground points, a face's shadow; a triangle repeats its last corner. */
  type Quad = seq<Vec2>

  /**
   * What projecting gives: the error thrown for a sun below the horizon,
   * the non-finite numbers a sun exactly on it produces, or the points.
   */
  datatype Shadow<T> = Thrown(message: string) | NonFinite | Cast(value: T)

  /** The ground point under `point` along the sun direction `n`, for a sun above the horizon. */
  function Ground(point: Vec3, n: Vec3): (g: Vec2)
    requires n.z > 0.0
    ensures point.z == 0.0 ==> g == Vec2(point.x, point.y)
  {
    var t := point.z / n.z;
    Vec2(point.x - t * n.x, point.y - t * n.y)
  }

  /** `projectShadow`: throws for a sun below the horizon; a horizontal sun divides by zero. */
  function ProjectShadow(point: Vec3, n: Vec3): (r: Shadow<Vec2>)
    ensures r.Thrown? <==> n.z < 0.0
    ensures r.NonFinite? <==> n.z == 0.0
    ensures r.Cast? ==> n.z > 0.0 && r.value == Ground(point, n)
  {
    if n.z < 0.0 then Thrown("Expected n to point upwards")
    else if n.z == 0.0 then NonFinite
    else Cast(Ground(point, n))
  }

  /** The shadow point lies on the line through `point` along `n`, at the ground. */
  lemma GroundOnSunLine(point: Vec3, n: Vec3)
    requires n.z > 0.0
    ensures var g := Ground(point, n);
      var t := point.z / n.z;
      g.x + t * n.x == point.x && g.y + t * n.y == point.y && point.z - t * n.z == 0.0
  {
  }

  /** Shadows of points at the same height are the points shifted by the same offset. */
  lemma GroundShift(p: Vec3, q: Vec3, n: Vec3)
    requires n.z > 0.0 && p.z == q.z
    ensures Ground(p, n).x - Ground(q, n).x == p.x - q.x
    ensures Ground(p, n).y - Ground(q, n).y == p.y - q.y
  {
  }

  /**
   * `rot`: a turn by the angle whose cosine and sine are `c` and `s`
   * (those of minus the shape's rotation, taken by the caller).
   */
  function Rot(xy: Vec2, c: real, s: real): (r: Vec2)
    ensures c * c + s * s == 1.0 ==> r.x * r.x + r.y * r.y == xy.x * xy.x + xy.y * xy.y
  {
    var r := Vec2(c * xy.x + s * xy.y, -s * xy.x + c * xy.y);
    assert r.x * r.x + r.y * r.y == (c * c + s * s) * (xy.x * xy.x + xy.y * xy.y);
    r
  }

  /** Turning a point and its mirror through the centre gives mirrored points. */
  lemma RotOdd(xy: Vec2, c: real, s: real)
    ensures Rot(Vec2(-xy.x, -xy.y), c, s) == Vec2(-Rot(xy, c, s).x, -Rot(xy, c, s).y)
  {
  }

  /**
   * `getRectVertices`: the four corners of the footprint, from the south-west
   * anticlockwise, turned about and placed at the shape's centre. `c` and
   * `s` stand for the cosine and sine the source takes of minus the rotation.
   */
  function RectVertices(x: real, y: real, width: real, depth: real, c: real, s: real): (v: seq<Vec2>)
    ensures |v| == 4
    ensures v[0].x + v[2].x == 2.0 * x && v[0].y + v[2].y == 2.0 * y
    ensures v[1].x + v[3].x == 2.0 * x && v[1].y + v[3].y == 2.0 * y
  {
    var w2 := width / 2.0;
    var h2 := depth / 2.0;
    var corners := [Vec2(-w2, -h2), Vec2(w2, -h2), Vec2(w2, h2), Vec2(-w2, h2)];
    RotOdd(Vec2(w2, h2), c, s);
    RotOdd(Vec2(w2, -h2), c, s);
    seq(4, i requires 0 <= i < 4 => var p := Rot(corners[i], c, s); Vec2(p.x + x, p.y + y))
  }

  /** Unrotated (cosine 1, sine 0), the corners are south-west, south-east, north-east, north-west. */
  lemma RectVerticesUnrotated(x: real, y: real, width: real, depth: real)
    ensures RectVertices(x, y, width, depth, 1.0, 0.0) ==
      [Vec2(x - width / 2.0, y - depth / 2.0), Vec2(x + width / 2.0, y - depth / 2.0),
       Vec2(x + width / 2.0, y + depth / 2.0), Vec2(x - width / 2.0, y + depth / 2.0)]
  {
  }

  /** `midpoint`: the componentwise average. */
  function Midpoint(a: Vec2, b: Vec2): (m: Vec2)
    ensures m.x - a.x == b.x - m.x && m.y - a.y == b.y - m.y
  {
    Vec2(0.5 * (a.x + b.x), 0.5 * (a.y + b.y))
  }

  /** The midpoint does not depend on the order of its ends, and of a point with itself is the point. */
  lemma MidpointSymmetric(a: Vec2, b: Vec2)
    ensures Midpoint(a, b) == Midpoint(b, a)
    ensures Midpoint(a, a) == a
  {
  }

  /** Points of the plane raised to height `z`. */
  function Lift(base: seq<Vec2>, z: real): (v: seq<Vec3>)
    ensures |v| == |base|
    ensures forall i :: 0 <= i < |base| ==> v[i] == Vec3(base[i].x, base[i].y, z)
  {
    seq(|base|, i requires 0 <= i < |base| => Vec3(base[i].x, base[i].y, z))
  }

  predicate FacesIndex(faces: seq<seq<nat>>, count: nat) {
    forall f :: 0 <= f < |faces| ==> |faces[f]| == 4 && forall k :: 0 <= k < 4 ==> faces[f][k] < count
  }

  /** Each face's corners, looked up among the vertices and projected. */
  function ProjectFaces(vertices: seq<Vec3>, faces: seq<seq<nat>>, n: Vec3): (quads: seq<Quad>)
    requires n.z > 0.0 && FacesIndex(faces, |vertices|)
    ensures |quads| == |faces|
    ensures forall f :: 0 <= f < |faces| ==> |quads[f]| == 4
  {
    seq(|faces|, f requires 0 <= f < |faces| =>
      seq(4, k requires 0 <= k < 4 => Ground(vertices[faces[f][k]], n)))
  }

  /** The faces of a prism: base, four walls, top; vertices 0-3 at the ground, 4-7 above them. */
  const RectFaces: seq<seq<nat>> :=
    [[0, 1, 2, 3], [1, 2, 6, 5], [2, 3, 7, 6], [0, 3, 7, 4], [0, 1, 5, 4], [4, 5, 6, 7]]

  /**
   * The faces of a house: those of a prism whose top is the eaves (4-7),
   * then the two roof slopes and the two gable triangles up to the ridge
   * ends 8 (east) and 9 (west).
   */
  const HouseFaces: seq<seq<nat>> :=
    [[0, 1, 2, 3], [1, 2, 6, 5], [2, 3, 7, 6], [0, 3, 7, 4], [0, 1, 5, 4], [4, 5, 6, 7],
     [4, 5, 8, 9], [5, 6, 8, 8], [6, 7, 9, 8], [4, 7, 9, 9]]

  lemma HouseFacesIndexed()
    ensures FacesIndex(HouseFaces, 10)
  {
  }

  /** Shared error handling: every corner is projected along the same sun. */
  function ProjectAll(vertices: seq<Vec3>, faces: seq<seq<nat>>, n: Vec3): (r: Shadow<seq<Quad>>)
    requires FacesIndex(faces, |vertices|) && |faces| > 0
    ensures r.Thrown? <==> n.z < 0.0
    ensures r.NonFinite? <==> n.z == 0.0
  {
    if n.z < 0.0 then Thrown("Expected n to point upwards")
    else if n.z == 0.0 then NonFinite
    else Cast(ProjectFaces(vertices, faces, n))
  }

  /** The vertices of a prism: its footprint on the ground, then at its height. */
  function RectSolid(base: seq<Vec2>, height: real): (v: seq<Vec3>)
    ensures |v| == 2 * |base|
  {
    Lift(base, 0.0) + Lift(base, height)
  }

  /** The vertices of a house: footprint, eaves at two thirds of the height, ridge ends at full height. */
  function HouseSolid(base: seq<Vec2>, height: real): (v: seq<Vec3>)
    requires |base| == 4
    ensures |v| == 10
  {
    Lift(base, 0.0) + Lift(base, height * 2.0 / 3.0)
      + Lift([Midpoint(base[1], base[2]), Midpoint(base[0], base[3])], height)
  }

  /**
   * `projectRect`: the six faces of the prism over `rect`'s footprint,
   * cast on the ground. `c` and `s` are the cosine and sine of minus its rotation.
   * The source's `Rect` type always carries a height, hence the precondition.
   */
  function ProjectRect(rect: Shape, n: Vec3, c: real, s: real): (r: Shadow<seq<Quad>>)
    requires rect.height.Some?
    ensures r.Thrown? <==> n.z < 0.0
    ensures r.NonFinite? <==> n.z == 0.0
  {
    var base := RectVertices(rect.x, rect.y, rect.width, rect.depth, c, s);
    ProjectAll(RectSolid(base, rect.height.value), RectFaces, n)
  }

  /** `projectHouse`: the ten faces of the house over `house`'s footprint, cast on the ground; a `House` always carries a height. */
  function ProjectHouse(house: Shape, n: Vec3, c: real, s: real): (r: Shadow<seq<Quad>>)
    requires house.height.Some?
    ensures r.Thrown? <==> n.z < 0.0
    ensures r.NonFinite? <==> n.z == 0.0
  {
    var base := RectVertices(house.x, house.y, house.width, house.depth, c, s);
    ProjectAll(HouseSolid(base, house.height.value), HouseFaces, n)
  }

  /** A ground point moved against the sun's horizontal direction, as far as height z casts. */
  function Shifted(p: Vec2, z: real, n: Vec3): Vec2
    requires n.z > 0.0
  {
    Vec2(p.x - z / n.z * n.x, p.y - z / n.z * n.y)
  }

  /** A point raised to height z casts its shadow at the ground point shifted by z's reach. */
  lemma LiftedShadow(p: Vec2, z: real, n: Vec3)
    requires n.z > 0.0
    ensures Ground(Vec3(p.x, p.y, z), n) == Shifted(p, z, n)
    ensures z == 0.0 ==> Shifted(p, z, n) == p
  {
  }

  /** The k-th corner of each layer of a solid built from footprint layers. */
  lemma LayerCorner(base: seq<Vec2>, lower: real, upper: real, k: nat)
    requires |base| == 4 && k < 4
    ensures (Lift(base, lower) + Lift(base, upper))[k] == Vec3(base[k].x, base[k].y, lower)
    ensures (Lift(base, lower) + Lift(base, upper))[4 + k] == Vec3(base[k].x, base[k].y, upper)
  {
  }

  /**
   * The shadow of a prism over any footprint: six quads, the first the
   * footprint itself, the top face the footprint shifted by the height's reach.
   */
  lemma PrismShadow(base: seq<Vec2>, h: real, n: Vec3)
    requires |base| == 4 && n.z > 0.0
    ensures var q := ProjectFaces(RectSolid(base, h), RectFaces, n);
      |q| == 6 && q[0] == base && forall k :: 0 <= k < 4 ==> q[5][k] == Shifted(base[k], h, n)
  {
    var v := RectSolid(base, h);
    var q := ProjectFaces(v, RectFaces, n);
    forall k | 0 <= k < 4
      ensures q[0][k] == base[k] && q[5][k] == Shifted(base[k], h, n)
    {
      LayerCorner(base, 0.0, h, k);
      LiftedShadow(base[k], 0.0, n);
      LiftedShadow(base[k], h, n);
      assert RectFaces[0][k] == k && RectFaces[5][k] == 4 + k;
    }
  }

  /** The k-th corner of a house's footprint and of its eaves. */
  lemma HouseCorner(base: seq<Vec2>, h: real, k: nat)
    requires |base| == 4 && k < 4
    ensures HouseSolid(base, h)[k] == Vec3(base[k].x, base[k].y, 0.0)
    ensures HouseSolid(base, h)[4 + k] == Vec3(base[k].x, base[k].y, h * 2.0 / 3.0)
  {
    LayerCorner(base, 0.0, h * 2.0 / 3.0, k);
  }

  /** The ridge ends of a house, vertices 8 and 9, are the side midpoints at full height. */
  lemma HouseRidge(base: seq<Vec2>, h: real, n: Vec3)
    requires |base| == 4 && n.z > 0.0
    ensures var q := ProjectFaces(HouseSolid(base, h), HouseFaces, n);
      |q| == 10 &&
      q[6][2] == Shifted(Midpoint(base[1], base[2]), h, n) &&
      q[6][3] == Shifted(Midpoint(base[0], base[3]), h, n)
  {
    var ridge := [Midpoint(base[1], base[2]), Midpoint(base[0], base[3])];
    var v := HouseSolid(base, h);
    assert v[8] == Vec3(ridge[0].x, ridge[0].y, h) && v[9] == Vec3(ridge[1].x, ridge[1].y, h);
    LiftedShadow(ridge[0], h, n);
    LiftedShadow(ridge[1], h, n);
    assert HouseFaces[6][2] == 8 && HouseFaces[6][3] == 9;
  }

  /** Corner k of face f of the projected faces is the shadow of the vertex the face names there. */
  lemma FaceCorner(vertices: seq<Vec3>, faces: seq<seq<nat>>, n: Vec3, f: nat, k: nat)
    requires n.z > 0.0 && FacesIndex(faces, |vertices|) && f < |faces| && k < 4
    ensures ProjectFaces(vertices, faces, n)[f][k] == Ground(vertices[faces[f][k]], n)
  {
  }

  /** A house's first face is its footprint. */
  lemma HouseFootprint(base: seq<Vec2>, h: real, n: Vec3)
    requires |base| == 4 && n.z > 0.0
    ensures ProjectFaces(HouseSolid(base, h), HouseFaces, n)[0] == base
  {
    var v := HouseSolid(base, h);
    HouseFacesIndexed();
    var q0 := ProjectFaces(v, HouseFaces, n)[0];
    forall k | 0 <= k < 4
      ensures q0[k] == base[k]
    {
      assert HouseFaces[0][k] == k;
      FaceCorner(v, HouseFaces, n, 0, k);
      HouseCorner(base, h, k);
      LiftedShadow(base[k], 0.0, n);
    }
  }

  /** A house's sixth face is its eaves, the footprint shifted by two thirds of the height's reach. */
  lemma HouseEaves(base: seq<Vec2>, h: real, n: Vec3)
    requires |base| == 4 && n.z > 0.0
    ensures forall k :: 0 <= k < 4 ==>
      ProjectFaces(HouseSolid(base, h), HouseFaces, n)[5][k] == Shifted(base[k], h * 2.0 / 3.0, n)
  {
    var v := HouseSolid(base, h);
    HouseFacesIndexed();
    var q5 := ProjectFaces(v, HouseFaces, n)[5];
    forall k | 0 <= k < 4
      ensures q5[k] == Shifted(base[k], h * 2.0 / 3.0, n)
    {
      assert HouseFaces[5][k] == 4 + k;
      FaceCorner(v, HouseFaces, n, 5, k);
      HouseCorner(base, h, k);
      LiftedShadow(base[k], h * 2.0 / 3.0, n);
    }
  }

  /**
   * The shadow of a house over any footprint: ten quads, the footprint
   * first, the eaves (face 5) the footprint shifted by two thirds of the
   * height's reach, and the ridge of the first roof slope from the east
   * side's midpoint to the west side's, shifted by the full height's reach.
   */
  lemma HouseShadow(base: seq<Vec2>, h: real, n: Vec3)
    requires |base| == 4 && n.z > 0.0
    ensures var q := ProjectFaces(HouseSolid(base, h), HouseFaces, n);
      |q| == 10 && q[0] == base &&
      (forall k :: 0 <= k < 4 ==> q[5][k] == Shifted(base[k], h * 2.0 / 3.0, n)) &&
      q[6][2] == Shifted(Midpoint(base[1], base[2]), h, n) &&
      q[6][3] == Shifted(Midpoint(base[0], base[3]), h, n)
  {
    HouseFootprint(base, h, n);
    HouseEaves(base, h, n);
    HouseRidge(base, h, n);
  }

  /** `projectRect` for a sun above the horizon: the prism's shadow over the rectangle's footprint. */
  lemma ProjectRectProps(rect: Shape, n: Vec3, c: real, s: real)
    requires n.z > 0.0 && rect.height.Some?
    ensures var r := ProjectRect(rect, n, c, s);
      var base := RectVertices(rect.x, rect.y, rect.width, rect.depth, c, s);
      var h := rect.height.value;
      r.Cast? && |r.value| == 6 && (forall f :: 0 <= f < 6 ==> |r.value[f]| == 4) &&
      r.value[0] == base &&
      forall k :: 0 <= k < 4 ==> r.value[5][k] == Shifted(base[k], h, n)
  {
    var base := RectVertices(rect.x, rect.y, rect.width, rect.depth, c, s);
    var h := rect.height.value;
    PrismShadow(base, h, n);
  }

  /** `projectHouse` for a sun above the horizon: the house's shadow over its footprint. */
  lemma ProjectHouseProps(house: Shape, n: Vec3, c: real, s: real)
    requires n.z > 0.0 && house.height.Some?
    ensures var r := ProjectHouse(house, n, c, s);
      var base := RectVertices(house.x, house.y, house.width, house.depth, c, s);
      var h := house.height.value;
      r.Cast? && |r.value| == 10 && (forall f :: 0 <= f < 10 ==> |r.value[f]| == 4) &&
      r.value[0] == base &&
      (forall k :: 0 <= k < 4 ==> r.value[5][k] == Shifted(base[k], h * 2.0 / 3.0, n)) &&
      r.value[6][2] == Shifted(Midpoint(base[1], base[2]), h, n) &&
      r.value[6][3] == Shifted(Midpoint(base[0], base[3]), h, n)
  {
    var base := RectVertices(house.x, house.y, house.width, house.depth, c, s);
    var h := house.height.value;
    HouseShadow(base, h, n);
  }
}
