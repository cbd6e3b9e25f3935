/**
 * The shapes Shady Business places on its artboard: rectangles (prisms),
 * houses and images, with the world-unit vectors the other modules use.
 */
module Shapes {
  import opened Wrappers

  /** A point or offset in the plane, world units or pixels. */
  datatype Vec2 = Vec2(x: real, y: real)

  /** A point in space: x east, y north, z up. */
  datatype Vec3 = Vec3(x: real, y: real, z: real)

  datatype ShapeType = RectType | HouseType | ImageType

  /**
   * One shape, as the union of the three record types: an image has no
   * `height` and is the only one with a `src`. Ids are whole numbers.
   */
  datatype Shape = Shape(shapeType: ShapeType, x: real, y: real, width: real, depth: real,
                         height: Option<real>, rotation: real, id: int, src: Option<string>)

  /** `makeRect`: a 10 by 6 prism 5 high at (15, 15), unrotated; the random id is a parameter. */
  function MakeRect(id: int): (s: Shape)
    ensures s.shapeType == RectType && s.id == id && s.src.None?
  {
    Shape(RectType, 15.0, 15.0, 10.0, 6.0, Some(5.0), 0.0, id, None)
  }

  /** `makeHouse`: the same footprint and height as a new rectangle. */
  function MakeHouse(id: int): (s: Shape)
    ensures s.shapeType == HouseType && s.id == id && s.src.None?
    ensures s == MakeRect(id).(shapeType := HouseType)
  {
    Shape(HouseType, 15.0, 15.0, 10.0, 6.0, Some(5.0), 0.0, id, None)
  }

  /** `makeImage`: an image of the given size at (15, 15), its height stored as depth. */
  function MakeImage(src: string, width: real, height: real, id: int): (s: Shape)
    ensures s.shapeType == ImageType && s.id == id && s.src == Some(src)
    ensures s.width == width && s.depth == height && s.height.None?
  {
    Shape(ImageType, 15.0, 15.0, width, height, None, 0.0, id, Some(src))
  }
}
