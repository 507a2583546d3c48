# CharacterController2D collision resolver in Dafny

This project models `CCharacterController2D`, the raycast-based 2D
kinematic mover of the CharacterController2D Unity project. Each frame,
`Move` does the following:

- it takes a requested displacement;
- it refreshes the four ray origins from the box collider's bounds, inset
  by a skin width of 0.015;
- it clears the contact flags;
- when x is non-zero, it casts a fan of parallel horizontal rays from the
  leading side;
- when y is non-zero, it casts a fan of vertical rays from the leading
  edge, shifted by the x already resolved;
- it translates the body by what is left of the displacement.

Every ray that hits cuts the displacement on its axis to stop a skin width
short of the hit. It also shortens the later rays to that hit distance and
sets the flags of the side it met.

The model is split into four modules:

- `Engine` (`engine.dfy`) holds the engine value types and helpers the
  component relies on:
  - `Vector2`/`Vector3` as `Vec2`/`Vec3`;
  - `Bounds` stored as centre and extents, with `Expand`;
  - `Mathf.Sign`, `Mathf.Abs` and the integer `Mathf.Clamp`;
  - a 32-bit `int` as `Int32`.
- `RayGeometry` (`geometry.dfy`) holds the skin width, the `RaycastOrigins`
  struct and the inset corners `UpdateRaycastOrigins` computes.
- `Collisions` (`collisions.dfy`) states the resolver as values:
  - the `CollisionsInfo` struct and its `Reset`;
  - the ray cast as an oracle `Raycaster`;
  - the fan of rays a pass casts (`RayFan`);
  - the pass itself as the tail-recursive `Sweep` over that fan;
  - the results of one pass (`ResolveHorizontal`, `ResolveVertical`) and
    of a whole move (`ResolveMove`);
  - lemmas about all of these.
- `Controller` (`controller.dfy`) is the component itself. The class
  `CharacterController2D` has:
  - the fields the C# class updates in place: the ray counts and
    spacings, the cached origins, the contact flags, and the position that
    `transform.Translate` moves;
  - its methods, each proved against the `Collisions` functions.

  The two collision passes keep the C# `for` loops. Their invariant says
  that the rays still to be cast, run from the loop's current state, give
  the same result as the whole sweep from the start.

`float` is modelled as `real`. `Physics2D.Raycast` against the collision
mask becomes a function parameter, `(origin, direction, maxLength) -> Miss
| Hit(distance)`. Properties that depend on how the engine answers take a
scene predicate as a precondition:

- `WithinRange`: a hit lies on the ray within the requested length;
- `HitsClearOfSkin`: the rays of one pass report hits within the requested
  length and no nearer than the skin width to where they start. It speaks
  only of the rays that pass casts. It holds when two things are true:
  - no obstacle overlaps the box at the position the pass casts from (for
    the vertical pass, the box moved by the x already resolved);
  - the ray origins lie within the inset edges, which needs spacings that
    match the current bounds.

  `WallHitsClearOfSkin` and `GroundHitsClearOfSkin` prove it for the wall
  and ground scenes.

The vertical rays start at the box shifted by the resolved x (line 121),
so a diagonal move can bring an obstacle inside that shifted box's skin.
Suppose the box moves down and sideways past a ledge whose top is less than
a skin width above the box's bottom. Line 133 then sets y to
`(d − skin) * −1` for a hit distance `d` below the skin width, so y comes
out positive: the box moves up, against the requested direction, by up to a
skin width, with `isGrounded` set. `LedgeLiftsDiagonalMove` shows this for
the unit box. The clamp lemmas exclude such a pass through their
`HitsClearOfSkin` hypothesis.

The collider's bounds are passed to `Move` and `CalculateRaySpacing` as a
value.

Three facts about the code shape the model:

- The code has no slope logic.
- Each hit assigns `(d − skin) * dir` (lines 93 and 133), with no
  comparison against the value already there.
- Only `Move` tests for a zero component (lines 55 and 58).
  `HorizontalCollisions` and `VerticalCollisions` are public and run on a
  zero component too. `Mathf.Sign(0)` is +1, so such a pass casts towards
  positive x (or y). The model keeps that behaviour.

## Model

| member | source | states |
|---|---|---|
| Engine.Bounds.Expand | CharacterController/Assets/_Game/Scripts/CCharacterController2D.cs:151 | `Bounds.Expand(amount)` keeps the centre, grows the size by `amount` on every axis, and moves min and max outwards by `amount / 2` (inwards for the negative amount used here) |
| Engine.Abs | CharacterController/Assets/_Game/Scripts/CCharacterController2D.cs:72 | `Mathf.Abs` is non-negative and equals the argument or its negation |
| Engine.Sign | CharacterController/Assets/_Game/Scripts/CCharacterController2D.cs:69 | `Mathf.Sign` is always +1 or −1, and +1 exactly when the argument is zero or positive |
| Engine.Clamp | CharacterController/Assets/_Game/Scripts/CCharacterController2D.cs:169-170 | `Mathf.Clamp` on ints stays within `[min, max]`, keeps an in-range value, and lifts a value below `min` to `min` |
| RayGeometry.InsetCorners | CharacterController/Assets/_Game/Scripts/CCharacterController2D.cs:148-157 | each corner is the matching bounds corner moved inwards by the skin width on both axes; the left corners share an x, the right corners share an x, and the bottom and the top corners each share a y |
| Collisions.CollisionsInfo.Reset | CharacterController/Assets/_Game/Scripts/CCharacterController2D.cs:191-197 | all four flags (`above`, `isGrounded`, `left`, `right`) are false afterwards |
| Collisions.HorizontalFan | CharacterController/Assets/_Game/Scripts/CCharacterController2D.cs:75-84 | the horizontal pass casts exactly `count` rays, and none when `count` is not positive |
| Collisions.VerticalFan | CharacterController/Assets/_Game/Scripts/CCharacterController2D.cs:115-124 | the vertical pass casts exactly `count` rays, and none when `count` is not positive |
| Collisions.RaysStartOnLeadingSide | CharacterController/Assets/_Game/Scripts/CCharacterController2D.cs:78-81 | every horizontal ray starts at the x of the leading side (bottom-left when moving left, bottom-right otherwise) and every vertical ray at the y of the leading edge (bottom when moving down, top otherwise), whatever its index |
| Collisions.OpeningReach | CharacterController/Assets/_Game/Scripts/CCharacterController2D.cs:72 | a pass starts with no hit, the requested component, and rays reaching exactly a skin width beyond the requested displacement in its direction (also line 112) |
| Collisions.StepClamps | CharacterController/Assets/_Game/Scripts/CCharacterController2D.cs:90-96 | one ray: a miss changes nothing; a hit at `d` records the hit, shortens the later rays to `d` (line 96) and sets the component to stop a skin width short of the hit in the direction of travel (line 93) |
| Collisions.Sweep | CharacterController/Assets/_Game/Scripts/CCharacterController2D.cs:75-102 | a pass either leaves its state untouched or ends having hit, and a hit once recorded is never lost |
| Collisions.SweepOutcome | CharacterController/Assets/_Game/Scripts/CCharacterController2D.cs:90-96 | either every ray misses and nothing changes, or the final component is `(d − skin) * dir` for the distance `d` of the LAST ray that hit, every later ray (cast with length `d`) having missed |
| Collisions.SweepHitsUnlessAllMiss | CharacterController/Assets/_Game/Scripts/CCharacterController2D.cs:90-101 | a pass records a hit if and only if some ray hits; when all rays miss, the pass changes nothing |
| Collisions.SweepRayLengthNonIncreasing | CharacterController/Assets/_Game/Scripts/CCharacterController2D.cs:96 | with hits within range, the ray length never grows over a pass and stays non-negative |
| Collisions.SweepStaysWithinRequest | CharacterController/Assets/_Game/Scripts/CCharacterController2D.cs:72-96 | when the hits of the rays still to be cast are at least a skin width away, the pass keeps `component * dir == rayLength − skin` and the ray length between the skin width and its starting value |
| Collisions.ClampedComponent | CharacterController/Assets/_Game/Scripts/CCharacterController2D.cs:69-96 | when the hits the pass's own rays can report are at least a skin width away, a whole pass never increases the magnitude of the component and never reverses its sign |
| Collisions.SweepAgainstFlatObstacle | CharacterController/Assets/_Game/Scripts/CCharacterController2D.cs:90-96 | when every ray meets one flat obstacle at the same distance `d` within reach, the pass ends at `(d − skin) * dir` with ray length `d` |
| Collisions.ResolveHorizontal | CharacterController/Assets/_Game/Scripts/CCharacterController2D.cs:66-103 | only the x component changes; either nothing changes or the left/right flags are set from the direction of x |
| Collisions.HorizontalHits | CharacterController/Assets/_Game/Scripts/CCharacterController2D.cs:90-100 | when every horizontal ray misses, velocity and flags are unchanged; otherwise `left` is set iff x < 0 and `right` iff x ≥ 0, so never both |
| Collisions.ResolveVertical | CharacterController/Assets/_Game/Scripts/CCharacterController2D.cs:106-143 | only the y component changes; either nothing changes or the grounded/above flags are set from the direction of y |
| Collisions.VerticalHits | CharacterController/Assets/_Game/Scripts/CCharacterController2D.cs:130-140 | when every vertical ray misses, velocity and flags are unchanged; otherwise `isGrounded` is set iff y < 0 and `above` iff y ≥ 0, so never both |
| Collisions.AfterHorizontal | CharacterController/Assets/_Game/Scripts/CCharacterController2D.cs:52-56 | after the reset and the guarded horizontal pass, only x may differ from the request and the vertical flags are clear |
| Collisions.ResolveMove | CharacterController/Assets/_Game/Scripts/CCharacterController2D.cs:46-63 | z is untouched; each flag implies motion towards its side; opposite flags are never both set; an axis with both flags clear keeps its requested value (so a zero axis stays zero with its flags clear) |
| Collisions.MoveContacts | CharacterController/Assets/_Game/Scripts/CCharacterController2D.cs:52-59 | after a move, `left`/`right` hold iff x was negative/positive and some horizontal ray hit; `isGrounded`/`above` hold iff y was negative/positive and some vertical ray, shifted by the resolved x, hit |
| Collisions.MoveWithoutObstacles | CharacterController/Assets/_Game/Scripts/CCharacterController2D.cs:46-63 | in an empty scene the resolved velocity is the requested one and all four flags are false |
| Collisions.MoveStaysWithinRequest | CharacterController/Assets/_Game/Scripts/CCharacterController2D.cs:46-63 | when the hits of the passes the move runs (the horizontal rays when x ≠ 0, the vertical rays shifted by the resolved x when y ≠ 0) are at least a skin width away, a move never goes farther than requested on x or y, nor the opposite way |
| Collisions.MoveForgetsPreviousContacts | CharacterController/Assets/_Game/Scripts/CCharacterController2D.cs:52 | the result of a move does not depend on the flags left by the previous move |
| Collisions.HorizontalRayOrigin | CharacterController/Assets/_Game/Scripts/CCharacterController2D.cs:78-81 | for any spacing, horizontal ray `i` starts on the leading inset side (left when moving left, right otherwise), `i` spacings above the bottom inset edge |
| Collisions.HorizontalRaysSpanLeadingEdge | CharacterController/Assets/_Game/Scripts/CCharacterController2D.cs:78-81 | with the spacing `CalculateRaySpacing` computes for the same bounds (lines 172-173), the first ray starts at the leading bottom corner and the last at the leading top corner |
| Collisions.VerticalRayOrigin | CharacterController/Assets/_Game/Scripts/CCharacterController2D.cs:118-121 | for any spacing, vertical ray `i` starts on the leading inset edge (bottom when moving down, top otherwise), `i` spacings plus the resolved x to the right of the left inset side |
| Collisions.VerticalRaysSpanLeadingEdge | CharacterController/Assets/_Game/Scripts/CCharacterController2D.cs:118-121 | with the spacing `CalculateRaySpacing` computes for the same bounds, the last ray starts at the leading right corner shifted by x |
| Collisions.WallAhead | CharacterController/Assets/_Game/Scripts/CCharacterController2D.cs:66-103 | a box moving right towards a wall at `wallX` ends flush against it, moving `wallX − max.x` with `right` set, when the wall is within reach; otherwise it moves the whole way with no flag set |
| Collisions.GroundBelow | CharacterController/Assets/_Game/Scripts/CCharacterController2D.cs:106-143 | a box falling onto flat ground lands flush on it with `isGrounded` set and `above` clear when the ground is within reach; otherwise it falls the whole way |
| Collisions.WallHitsClearOfSkin | CharacterController/Assets/_Game/Scripts/CCharacterController2D.cs:84 | the horizontal rays of a move to the right meet a wall the box does not overlap at least a skin width away and within their length, so the clamp lemmas apply to that scene |
| Collisions.GroundHitsClearOfSkin | CharacterController/Assets/_Game/Scripts/CCharacterController2D.cs:124 | the vertical rays of a fall meet ground the box does not overlap at least a skin width away and within their length |
| Collisions.UnitBoxAgainstWall | CharacterController/Assets/_Game/Scripts/CCharacterController2D.cs:46-63 | the unit box asked to move (5, 0, 0) towards a wall at x = 3 moves (2, 0, 0) with only `right` set |
| Collisions.LedgeHorizontalPass | CharacterController/Assets/_Game/Scripts/CCharacterController2D.cs:66-103 | in the ledge scene the horizontal rays of the unit box moving (2, −0.1) pass over the ledge: x stays 2 and all flags are clear |
| Collisions.LedgeVerticalPass | CharacterController/Assets/_Game/Scripts/CCharacterController2D.cs:115-136 | in the ledge scene both vertical rays, cast down from the box shifted by x = 2, meet the ledge top 0.01 away, so the pass ends with y = +0.005 and ray length 0.01; that pass fails `HitsClearOfSkin` |
| Collisions.LedgeLiftsDiagonalMove | CharacterController/Assets/_Game/Scripts/CCharacterController2D.cs:46-63 | the unit box asked to move (2, −0.1, 0) past a ledge spanning 1.5 ≤ x ≤ 10 with its top at 0.005 moves (2, +0.005, 0), up against the request, with only `isGrounded` set |
| Controller.CharacterController2D.constructor | CharacterController/Assets/_Game/Scripts/CCharacterController2D.cs:17-34 | a new component has the configured ray counts, zero spacings, clear flags and the given position |
| Controller.CharacterController2D.CalculateRaySpacing | CharacterController/Assets/_Game/Scripts/CCharacterController2D.cs:161-175 | both counts become at least 2, a count already at least 2 is kept and a smaller one becomes 2; `hSpacing * (hCount − 1)` is the inset height and `vSpacing * (vCount − 1)` the inset width (the division is proved safe) |
| Controller.CharacterController2D.UpdateRaycastOrigins | CharacterController/Assets/_Game/Scripts/CCharacterController2D.cs:146-158 | the cached origins become `InsetCorners` of the given bounds |
| Controller.CharacterController2D.HorizontalCollisions | CharacterController/Assets/_Game/Scripts/CCharacterController2D.cs:66-103 | the loop returns the velocity and leaves the flags exactly as `ResolveHorizontal` gives them for the current origins, spacing and count |
| Controller.CharacterController2D.VerticalCollisions | CharacterController/Assets/_Game/Scripts/CCharacterController2D.cs:106-143 | the loop returns the velocity and leaves the flags exactly as `ResolveVertical` gives them |
| Controller.CharacterController2D.Move | CharacterController/Assets/_Game/Scripts/CCharacterController2D.cs:46-63 | the origins are refreshed from the bounds, the flags become those of `ResolveMove` and the position advances by its resolved velocity; counts and spacings are untouched |

## Left out

- `Physics2D.Raycast` and the `LayerMask` are engine calls. They are an
  oracle parameter, and the scene geometry is not modelled. Properties
  that need the engine's promises about hit distances take them as a
  precondition (`WithinRange`, `HitsClearOfSkin`).
- `BoxCollider2D.bounds`, `Start` and `GetComponent` are engine lifecycle
  and lookup. The bounds are a parameter, and `CalculateRaySpacing` is a
  method the caller runs before moving.
- `Debug.DrawRay` (lines 87 and 127) only draws debug output.
- `transform.Translate` is adding the resolved velocity to a `position`
  field. The transform's rotation and scale are not modelled.
- IEEE single-precision rounding: `float` is `real`, so no exact
  floating-point behaviour is claimed. In particular, the `tDirectionX == -1`
  tests are exact.
- Vector directions `Vector2.right * dir` and `Vector2.up * dir` are
  written out componentwise, as `Vec2(dir, 0)` and `Vec2(0, dir)`.
- CPlayer.cs is not part of this model. It polls input, integrates
  gravity and jumps with frame timing, and calls `Move` once per frame.
- Collisions.SweepOutcome states the last-hit property for the pass as a
  whole rather than per loop iteration. Intermediate values of the loop
  are reachable only through `Sweep`. The length that last ray was cast
  with is quantified existentially rather than tied to the loop's ray
  length at that index.

