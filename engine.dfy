/** The engine value types and `Mathf` helpers that the character controller
    relies on: 2D and 3D vectors, axis-aligned bounds stored as centre and
    extents, `Mathf.Sign`, `Mathf.Abs` and the integer `Mathf.Clamp`.
    Floating point is modelled by `real`; no rounding is claimed. */
module Engine {

  /** A C# `int`. */
  type Int32 = x: int | -0x8000_0000 <= x <= 0x7fff_ffff

  /** `int.MaxValue`. */
  const IntMaxValue: Int32 := 0x7fff_ffff

  datatype Vec2 = Vec2(x: real, y: real) {
    function Plus(o: Vec2): Vec2 { Vec2(x + o.x, y + o.y) }
    function Scale(k: real): Vec2 { Vec2(x * k, y * k) }
  }

  /** `Vector2.up` and `Vector2.right`. */
  const Up: Vec2 := Vec2(0.0, 1.0)
  const Right: Vec2 := Vec2(1.0, 0.0)

  datatype Vec3 = Vec3(x: real, y: real, z: real) {
    function Plus(o: Vec3): Vec3 { Vec3(x + o.x, y + o.y, z + o.z) }
  }

  /** An axis-aligned box stored as the engine stores it: a centre and the
      extents, which are half the size on each axis. */
  datatype Bounds = Bounds(center: Vec3, extents: Vec3) {
    function Min(): Vec3 {
      Vec3(center.x - extents.x, center.y - extents.y, center.z - extents.z)
    }
    function Max(): Vec3 {
      Vec3(center.x + extents.x, center.y + extents.y, center.z + extents.z)
    }
    function Size(): Vec3 {
      Vec3(2.0 * extents.x, 2.0 * extents.y, 2.0 * extents.z)
    }

    /** `Bounds.Expand(amount)`: the box keeps its centre and grows by
        `amount` along every axis, half of it on each side (a negative
        amount shrinks it). */
    function Expand(amount: real): (r: Bounds)
      ensures r.center == center
      ensures r.Size() == Vec3(Size().x + amount, Size().y + amount, Size().z + amount)
      ensures r.Min() == Vec3(Min().x - amount / 2.0, Min().y - amount / 2.0, Min().z - amount / 2.0)
      ensures r.Max() == Vec3(Max().x + amount / 2.0, Max().y + amount / 2.0, Max().z + amount / 2.0)
    {
      Bounds(center, Vec3(extents.x + amount * 0.5, extents.y + amount * 0.5, extents.z + amount * 0.5))
    }
  }

  /** `Mathf.Abs`. */
  function Abs(f: real): (r: real)
    ensures 0.0 <= r
    ensures r == f || r == -f
  {
    if f < 0.0 then -f else f
  }

  /** `Mathf.Sign`: +1 for zero and every positive value, -1 otherwise. */
  function Sign(f: real): (r: real)
    ensures r == 1.0 || r == -1.0
    ensures r == 1.0 <==> 0.0 <= f
  {
    if f >= 0.0 then 1.0 else -1.0
  }

  /** `Mathf.Clamp(int, int, int)`: below `min` gives `min`, otherwise above
      `max` gives `max`, otherwise the value itself. */
  function Clamp(value: Int32, min: Int32, max: Int32): (r: Int32)
    ensures min <= max ==> min <= r <= max
    ensures min <= value <= max ==> r == value
    ensures value < min ==> r == min
  {
    if value < min then min
    else if value > max then max
    else value
  }
}
