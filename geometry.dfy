/** Ray geometry: the skin width and the four corners the rays start from. */
module RayGeometry {
  import opened Engine

  /** Margin kept between the collider and anything it touches; rays start
      this far inside the box and reach this far beyond the displacement. */
  const SkinWidth: real := 0.015

  /** The `RaycastOrigins` struct: the corners of the collider bounds after
      they are shrunk by the skin width on every side. */
  datatype RaycastOrigins = RaycastOrigins(topLeft: Vec2, topRight: Vec2, bottomLeft: Vec2, bottomRight: Vec2)

  /** The corners `UpdateRaycastOrigins` stores for the given collider
      bounds: each corner of the box moved inwards by the skin width on
      both axes. */
  function InsetCorners(b: Bounds): (r: RaycastOrigins)
    ensures r.bottomLeft == Vec2(b.Min().x + SkinWidth, b.Min().y + SkinWidth)
    ensures r.bottomRight == Vec2(b.Max().x - SkinWidth, b.Min().y + SkinWidth)
    ensures r.topLeft == Vec2(b.Min().x + SkinWidth, b.Max().y - SkinWidth)
    ensures r.topRight == Vec2(b.Max().x - SkinWidth, b.Max().y - SkinWidth)
    ensures r.bottomLeft.x == r.topLeft.x && r.bottomRight.x == r.topRight.x
    ensures r.bottomLeft.y == r.bottomRight.y && r.topLeft.y == r.topRight.y
  {
    var shrunk := b.Expand(SkinWidth * -2.0);
    RaycastOrigins(
      topLeft := Vec2(shrunk.Min().x, shrunk.Max().y),
      topRight := Vec2(shrunk.Max().x, shrunk.Max().y),
      bottomLeft := Vec2(shrunk.Min().x, shrunk.Min().y),
      bottomRight := Vec2(shrunk.Max().x, shrunk.Min().y))
  }
}
