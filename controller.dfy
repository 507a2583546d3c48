/** The `CCharacterController2D` component: its configuration, the ray
    geometry it caches, the contact flags it exposes, and the position
    `Move` translates. Each method is proved against the functions of the
    `Collisions` and `RayGeometry` modules. */
module Controller {
  import opened Engine
  import opened RayGeometry
  import opened Collisions

  class CharacterController2D {
    /** How many rays the horizontal and the vertical pass cast. */
    var horizontalRayCount: Int32
    var verticalRayCount: Int32

    /** Distance between neighbouring rays of each pass. */
    var horizontalRaySpacing: real
    var verticalRaySpacing: real

    /** Corners of the inset collider bounds, refreshed by every move. */
    var raycastOrigins: RaycastOrigins

    /** Contact flags of the most recent move, read by the player script. */
    var collisionsInfo: CollisionsInfo

    /** Where the body is; `transform.Translate` adds to it. */
    var position: Vec3

    /** A component as the engine creates it: the configured ray counts,
        every other field at its default value. */
    constructor (horizontalRays: Int32, verticalRays: Int32, start: Vec3)
      ensures horizontalRayCount == horizontalRays && verticalRayCount == verticalRays
      ensures horizontalRaySpacing == 0.0 && verticalRaySpacing == 0.0
      ensures collisionsInfo == CollisionsInfo(false, false, false, false)
      ensures position == start
    {
      horizontalRayCount := horizontalRays;
      verticalRayCount := verticalRays;
      horizontalRaySpacing := 0.0;
      verticalRaySpacing := 0.0;
      var zero := Vec2(0.0, 0.0);
      raycastOrigins := RaycastOrigins(zero, zero, zero, zero);
      collisionsInfo := CollisionsInfo(false, false, false, false);
      position := start;
    }

    /** `CalculateRaySpacing`: both counts become at least two (a count that
        already was is kept), and the rays of each pass divide the inset
        side they lie on into `count - 1` equal gaps. */
    method CalculateRaySpacing(bounds: Bounds)
      modifies this`horizontalRayCount, this`verticalRayCount
      modifies this`horizontalRaySpacing, this`verticalRaySpacing
      ensures 2 <= horizontalRayCount && 2 <= verticalRayCount
      ensures 2 <= old(horizontalRayCount) ==> horizontalRayCount == old(horizontalRayCount)
      ensures old(horizontalRayCount) < 2 ==> horizontalRayCount == 2
      ensures 2 <= old(verticalRayCount) ==> verticalRayCount == old(verticalRayCount)
      ensures old(verticalRayCount) < 2 ==> verticalRayCount == 2
      ensures horizontalRaySpacing * ((horizontalRayCount - 1) as real) == bounds.Size().y - 2.0 * SkinWidth
      ensures verticalRaySpacing * ((verticalRayCount - 1) as real) == bounds.Size().x - 2.0 * SkinWidth
    {
      var shrunk := bounds.Expand(SkinWidth * -2.0);
      horizontalRayCount := Clamp(horizontalRayCount, 2, IntMaxValue);
      verticalRayCount := Clamp(verticalRayCount, 2, IntMaxValue);
      horizontalRaySpacing := shrunk.Size().y / ((horizontalRayCount - 1) as real);
      verticalRaySpacing := shrunk.Size().x / ((verticalRayCount - 1) as real);
    }

    /** `UpdateRaycastOrigins`: the cached corners become those of the given
        collider bounds, inset by the skin width. */
    method UpdateRaycastOrigins(bounds: Bounds)
      modifies this`raycastOrigins
      ensures raycastOrigins == InsetCorners(bounds)
    {
      var shrunk := bounds.Expand(SkinWidth * -2.0);
      raycastOrigins := raycastOrigins.(bottomLeft := Vec2(shrunk.Min().x, shrunk.Min().y));
      raycastOrigins := raycastOrigins.(bottomRight := Vec2(shrunk.Max().x, shrunk.Min().y));
      raycastOrigins := raycastOrigins.(topLeft := Vec2(shrunk.Min().x, shrunk.Max().y));
      raycastOrigins := raycastOrigins.(topRight := Vec2(shrunk.Max().x, shrunk.Max().y));
    }

    /** `HorizontalCollisions(ref aVelocity)`: casts the horizontal rays and
        returns the velocity with x clamped by every ray that hit; the
        left/right flags are updated as `ResolveHorizontal` says. */
    method HorizontalCollisions(velocity: Vec3, cast: Raycaster) returns (v: Vec3)
      modifies this`collisionsInfo
      ensures Resolution(v, collisionsInfo) ==
              ResolveHorizontal(cast, raycastOrigins, horizontalRaySpacing, horizontalRayCount,
                                velocity, old(collisionsInfo))
    {
      v := velocity;
      var directionX := Sign(v.x);
      var rayLength := Abs(v.x) + SkinWidth;
      ghost var fan := HorizontalFan(raycastOrigins, horizontalRaySpacing, horizontalRayCount, velocity);
      ghost var anyHit := false;
      var i := 0;
      while i < horizontalRayCount
        invariant 0 <= i
        invariant v == velocity.(x := v.x)
        invariant collisionsInfo == if anyHit
          then old(collisionsInfo).(left := directionX == -1.0, right := directionX == 1.0)
          else old(collisionsInfo)
        invariant Sweep(cast, fan, i, SweepState(v.x, rayLength, anyHit)) ==
                  Sweep(cast, fan, 0, Opening(velocity.x))
      {
        var rayOrigin := HorizontalOrigin(raycastOrigins, horizontalRaySpacing, directionX, i);
        var hit := cast(rayOrigin, Vec2(directionX, 0.0), rayLength);
        ghost var before := SweepState(v.x, rayLength, anyHit);
        HorizontalIteration(cast, raycastOrigins, horizontalRaySpacing, horizontalRayCount, velocity, i, before, hit);
        if hit.Hit? {
          v := v.(x := (hit.distance - SkinWidth) * directionX);
          rayLength := hit.distance;
          collisionsInfo := collisionsInfo.(left := directionX == -1.0);
          collisionsInfo := collisionsInfo.(right := directionX == 1.0);
          anyHit := true;
        }
        assert SweepState(v.x, rayLength, anyHit) == Step(hit, Sign(velocity.x), before);
        i := i + 1;
      }
    }

    /** `VerticalCollisions(ref aVelocity)`: casts the vertical rays, shifted
        by the velocity's x, and returns the velocity with y clamped by every
        ray that hit; the grounded/above flags are updated as
        `ResolveVertical` says. */
    method VerticalCollisions(velocity: Vec3, cast: Raycaster) returns (v: Vec3)
      modifies this`collisionsInfo
      ensures Resolution(v, collisionsInfo) ==
              ResolveVertical(cast, raycastOrigins, verticalRaySpacing, verticalRayCount,
                              velocity, old(collisionsInfo))
    {
      v := velocity;
      var directionY := Sign(v.y);
      var rayLength := Abs(v.y) + SkinWidth;
      ghost var fan := VerticalFan(raycastOrigins, verticalRaySpacing, verticalRayCount, velocity);
      ghost var anyHit := false;
      var i := 0;
      while i < verticalRayCount
        invariant 0 <= i
        invariant v == velocity.(y := v.y)
        invariant collisionsInfo == if anyHit
          then old(collisionsInfo).(isGrounded := directionY == -1.0, above := directionY == 1.0)
          else old(collisionsInfo)
        invariant Sweep(cast, fan, i, SweepState(v.y, rayLength, anyHit)) ==
                  Sweep(cast, fan, 0, Opening(velocity.y))
      {
        var rayOrigin := VerticalOrigin(raycastOrigins, verticalRaySpacing, directionY, v.x, i);
        var hit := cast(rayOrigin, Vec2(0.0, directionY), rayLength);
        ghost var before := SweepState(v.y, rayLength, anyHit);
        VerticalIteration(cast, raycastOrigins, verticalRaySpacing, verticalRayCount, velocity, i, before, hit);
        if hit.Hit? {
          v := v.(y := (hit.distance - SkinWidth) * directionY);
          rayLength := hit.distance;
          collisionsInfo := collisionsInfo.(isGrounded := directionY == -1.0);
          collisionsInfo := collisionsInfo.(above := directionY == 1.0);
          anyHit := true;
        }
        assert SweepState(v.y, rayLength, anyHit) == Step(hit, Sign(velocity.y), before);
        i := i + 1;
      }
    }

    /** `Move(aVelocity)`: refreshes the corners from the current collider
        bounds, resets the flags, resolves x and then y (each only when
        non-zero) and translates the body by the resolved velocity. The ray
        counts and spacings are left alone. */
    method Move(velocity: Vec3, bounds: Bounds, cast: Raycaster)
      modifies this`raycastOrigins, this`collisionsInfo, this`position
      ensures raycastOrigins == InsetCorners(bounds)
      ensures var r := ResolveMove(cast, raycastOrigins, horizontalRayCount, horizontalRaySpacing,
                                   verticalRayCount, verticalRaySpacing, velocity, old(collisionsInfo));
        collisionsInfo == r.contacts && position == old(position).Plus(r.velocity)
    {
      UpdateRaycastOrigins(bounds);
      collisionsInfo := collisionsInfo.Reset();
      var v := velocity;
      if v.x != 0.0 {
        v := HorizontalCollisions(v, cast);
      }
      if v.y != 0.0 {
        v := VerticalCollisions(v, cast);
      }
      position := position.Plus(v);
    }
  }
}
