/** The collision resolver as values: contact flags, the ray-cast oracle,
    the fan of parallel rays one pass casts, the sweep over that fan that
    clamps one velocity component, and the whole resolution a `Move` call
    performs. The controller's methods are proved against these functions. */
module Collisions {
  import opened Engine
  import opened RayGeometry

  /** The `CollisionsInfo` struct: which sides touched something during the
      most recent move. */
  datatype CollisionsInfo = CollisionsInfo(above: bool, isGrounded: bool, left: bool, right: bool) {
    /** `Reset`: every contact flag is cleared. */
    function Reset(): (r: CollisionsInfo)
      ensures !r.above && !r.isGrounded && !r.left && !r.right
    {
      this.(above := false, isGrounded := false, left := false, right := false)
    }
  }

  /** What a ray cast reports: nothing within range, or the distance along
      the ray to the first collider of the collision mask. */
  datatype RaycastHit = Miss | Hit(distance: real)

  /** `Physics2D.Raycast` against the fixed collision mask, as an oracle:
      (origin, direction, maximum length) to the hit it reports. */
  type Raycaster = (Vec2, Vec2, real) -> RaycastHit

  /** The engine's promise: a hit lies on the ray, no farther than the
      length asked for. */
  ghost predicate WithinRange(cast: Raycaster) {
    forall o: Vec2, d: Vec2, len: real :: cast(o, d, len).Hit? ==>
      0.0 <= cast(o, d, len).distance <= len
  }

  /** The parallel rays one collision pass casts: where each starts, in
      the order they are cast, the direction they all point in, and the
      sign of the velocity component being resolved. */
  datatype RayFan = RayFan(rays: seq<Vec2>, direction: Vec2, dir: real) {
    /** What ray `i` reports when cast with length `len`. */
    function Cast(cast: Raycaster, i: int, len: real): RaycastHit
      requires 0 <= i < |rays|
    {
      cast(rays[i], direction, len)
    }
  }

  /** How many times a `for (i = 0; i < count; i++)` loop runs. */
  function Iterations(count: int): nat {
    if count < 0 then 0 else count
  }

  /** Where horizontal ray `i` starts: the leading bottom corner (left when
      moving left, right otherwise) moved up by `i` spacings. */
  function HorizontalOrigin(origins: RaycastOrigins, spacing: real, dir: real, i: int): Vec2 {
    (if dir == -1.0 then origins.bottomLeft else origins.bottomRight).Plus(Up.Scale(spacing * (i as real)))
  }

  /** Where vertical ray `i` starts: the leading left corner (bottom when
      moving down, top otherwise) moved right by `i` spacings plus the
      already resolved horizontal velocity. */
  function VerticalOrigin(origins: RaycastOrigins, spacing: real, dir: real, shiftX: real, i: int): Vec2 {
    (if dir == -1.0 then origins.bottomLeft else origins.topLeft).Plus(Right.Scale(spacing * (i as real) + shiftX))
  }

  /** Every horizontal ray starts on the leading side of the inset box and
      every vertical ray on its leading edge, whatever its index. */
  lemma RaysStartOnLeadingSide(origins: RaycastOrigins, spacing: real, dir: real, shiftX: real, i: int)
    ensures HorizontalOrigin(origins, spacing, dir, i).x ==
            (if dir == -1.0 then origins.bottomLeft.x else origins.bottomRight.x)
    ensures VerticalOrigin(origins, spacing, dir, shiftX, i).y ==
            (if dir == -1.0 then origins.bottomLeft.y else origins.topLeft.y)
  {
  }

  /** The horizontal pass for velocity `v`: rays pointing along x in the
      direction of `v.x` (`Vector2.right * dir`, written out componentwise). */
  function HorizontalFan(origins: RaycastOrigins, spacing: real, count: int, v: Vec3): (fan: RayFan)
    ensures |fan.rays| == Iterations(count)
  {
    var dir := Sign(v.x);
    RayFan(seq(Iterations(count), i => HorizontalOrigin(origins, spacing, dir, i)), Vec2(dir, 0.0), dir)
  }

  /** The vertical pass for velocity `v`: rays pointing along y in the
      direction of `v.y` (`Vector2.up * dir`, written out componentwise),
      shifted by the horizontal part of `v`. */
  function VerticalFan(origins: RaycastOrigins, spacing: real, count: int, v: Vec3): (fan: RayFan)
    ensures |fan.rays| == Iterations(count)
  {
    var dir := Sign(v.y);
    RayFan(seq(Iterations(count), i => VerticalOrigin(origins, spacing, dir, v.x, i)), Vec2(0.0, dir), dir)
  }

  /** The loop state of a pass: the velocity component being clamped, the
      length the next ray is cast with, and whether any ray has hit. */
  datatype SweepState = SweepState(along: real, rayLength: real, hit: bool)

  /** The state a pass starts from for velocity component `along`: rays
      reach the skin width beyond the requested displacement. */
  function Opening(along: real): SweepState {
    SweepState(along, Abs(along) + SkinWidth, false)
  }

  /** The effect of one ray: a hit cuts the component to stop a skin width
      short of it and shortens the later rays to the hit distance. */
  function Step(h: RaycastHit, dir: real, s: SweepState): SweepState {
    match h
    case Miss => s
    case Hit(d) => SweepState((d - SkinWidth) * dir, d, true)
  }

  /** A pass starts with rays reaching exactly a skin width beyond the
      requested displacement, in its direction, and with no hit recorded. */
  lemma OpeningReach(along: real)
    ensures var r := Opening(along);
      !r.hit && r.along == along && SkinWidth <= r.rayLength &&
      r.along * Sign(along) == r.rayLength - SkinWidth
  {
  }

  /** A miss changes nothing; a hit at distance `d` records the hit,
      shortens the later rays to `d`, and leaves the component stopping a
      skin width short of the hit in the direction of travel. */
  lemma StepClamps(h: RaycastHit, dir: real, s: SweepState)
    requires dir == 1.0 || dir == -1.0
    ensures var r := Step(h, dir, s);
      (h.Miss? ==> r == s) &&
      (h.Hit? ==> r.hit && r.rayLength == h.distance && r.along * dir == h.distance - SkinWidth)
  {
  }

  /** Rays `i` to the last one, cast in ascending order. */
  function Sweep(cast: Raycaster, fan: RayFan, i: nat, s: SweepState): (r: SweepState)
    ensures r == s || r.hit
    ensures s.hit ==> r.hit
    decreases |fan.rays| - i
  {
    if i >= |fan.rays| then s
    else Sweep(cast, fan, i + 1, Step(fan.Cast(cast, i, s.rayLength), fan.dir, s))
  }

  /** One iteration of a pass: casting ray `i` with the current length and
      applying its outcome leaves the rest of the pass to do. */
  lemma SweepStep(cast: Raycaster, fan: RayFan, i: nat, s: SweepState, h: RaycastHit)
    requires i < |fan.rays|
    requires h == cast(fan.rays[i], fan.direction, s.rayLength)
    ensures Sweep(cast, fan, i, s) == Sweep(cast, fan, i + 1, Step(h, fan.dir, s))
  {
  }

  /** One iteration of the horizontal pass: ray `i` starts at
      `HorizontalOrigin` and points along x in the direction of `v.x`, so
      casting it and applying the outcome leaves rays `i + 1` onwards. */
  lemma HorizontalIteration(cast: Raycaster, origins: RaycastOrigins, spacing: real, count: int,
                            v: Vec3, i: nat, s: SweepState, h: RaycastHit)
    requires i < count
    requires h == cast(HorizontalOrigin(origins, spacing, Sign(v.x), i), Vec2(Sign(v.x), 0.0), s.rayLength)
    ensures var fan := HorizontalFan(origins, spacing, count, v);
      Sweep(cast, fan, i, s) == Sweep(cast, fan, i + 1, Step(h, Sign(v.x), s))
  {
    SweepStep(cast, HorizontalFan(origins, spacing, count, v), i, s, h);
  }

  /** One iteration of the vertical pass: ray `i` starts at `VerticalOrigin`
      (shifted by `v.x`) and points along y in the direction of `v.y`. */
  lemma VerticalIteration(cast: Raycaster, origins: RaycastOrigins, spacing: real, count: int,
                          v: Vec3, i: nat, s: SweepState, h: RaycastHit)
    requires i < count
    requires h == cast(VerticalOrigin(origins, spacing, Sign(v.y), v.x, i), Vec2(0.0, Sign(v.y)), s.rayLength)
    ensures var fan := VerticalFan(origins, spacing, count, v);
      Sweep(cast, fan, i, s) == Sweep(cast, fan, i + 1, Step(h, Sign(v.y), s))
  {
    SweepStep(cast, VerticalFan(origins, spacing, count, v), i, s, h);
  }

  /** Every hit that rays `from` onwards can report, whatever length they
      are cast with, lies on the ray within that length and at least a skin
      width from where the ray starts. */
  ghost predicate HitsClearOfSkin(cast: Raycaster, fan: RayFan, from: nat) {
    forall k, len :: from <= k < |fan.rays| && fan.Cast(cast, k, len).Hit? ==>
      SkinWidth <= fan.Cast(cast, k, len).distance <= len
  }

  /** Every ray from `from` on misses when cast with length `len`. */
  ghost predicate AllMiss(cast: Raycaster, fan: RayFan, from: nat, len: real) {
    forall k :: from <= k < |fan.rays| ==> fan.Cast(cast, k, len) == Miss
  }

  /** Ray `j`, cast with length `len`, hit at distance `d`, and every later
      ray, cast with the shortened length `d`, missed. */
  ghost predicate LastHitAt(cast: Raycaster, fan: RayFan, j: nat, len: real, d: real) {
    j < |fan.rays| &&
    fan.Cast(cast, j, len) == Hit(d) &&
    AllMiss(cast, fan, j + 1, d)
  }

  /** A pass either meets nothing, and changes nothing, or ends with the
      component cut to stop a skin width short of the last ray that hit,
      the ray length being that ray's hit distance. */
  lemma {:induction false} SweepOutcome(cast: Raycaster, fan: RayFan, i: nat, s: SweepState)
    ensures var r := Sweep(cast, fan, i, s);
      (AllMiss(cast, fan, i, s.rayLength) && r == s) ||
      (r.hit && r.along == (r.rayLength - SkinWidth) * fan.dir &&
       exists j: nat, len :: i <= j && LastHitAt(cast, fan, j, len, r.rayLength))
    decreases |fan.rays| - i
  {
    if i < |fan.rays| {
      var h := fan.Cast(cast, i, s.rayLength);
      var next := Step(h, fan.dir, s);
      SweepOutcome(cast, fan, i + 1, next);
      var r := Sweep(cast, fan, i, s);
      assert r == Sweep(cast, fan, i + 1, next);
      if AllMiss(cast, fan, i + 1, next.rayLength) && r == next {
        if h.Hit? {
          assert r == SweepState((h.distance - SkinWidth) * fan.dir, h.distance, true);
          assert r.hit && r.along == (r.rayLength - SkinWidth) * fan.dir;
          assert LastHitAt(cast, fan, i, s.rayLength, r.rayLength);
          assert exists j: nat, len :: i <= j && LastHitAt(cast, fan, j, len, r.rayLength);
          assert r == Sweep(cast, fan, i, s);
        } else {
          assert r == s;
          forall k | i <= k < |fan.rays|
            ensures fan.Cast(cast, k, s.rayLength) == Miss
          {
            if k == i {
              assert fan.Cast(cast, k, s.rayLength) == h;
            }
          }
        }
      } else {
        assert r.hit && r.along == (r.rayLength - SkinWidth) * fan.dir;
        var j: nat, len :| i + 1 <= j && LastHitAt(cast, fan, j, len, r.rayLength);
        assert i <= j && LastHitAt(cast, fan, j, len, r.rayLength);
      }
    }
  }

  /** Some ray of a pass hits exactly when not every ray misses. */
  lemma {:induction false} SweepHitsUnlessAllMiss(cast: Raycaster, fan: RayFan, i: nat, s: SweepState)
    ensures Sweep(cast, fan, i, s).hit <==> s.hit || !AllMiss(cast, fan, i, s.rayLength)
    ensures AllMiss(cast, fan, i, s.rayLength) ==> Sweep(cast, fan, i, s) == s
    decreases |fan.rays| - i
  {
    if i < |fan.rays| {
      var h := fan.Cast(cast, i, s.rayLength);
      SweepHitsUnlessAllMiss(cast, fan, i + 1, Step(h, fan.dir, s));
      if h.Miss? && !AllMiss(cast, fan, i, s.rayLength) {
        var k :| i <= k < |fan.rays| && fan.Cast(cast, k, s.rayLength) != Miss;
        assert k != i;
      }
    }
  }

  /** With hits that stay within range, the ray length never grows from
      one ray to the next. */
  lemma {:induction false} SweepRayLengthNonIncreasing(cast: Raycaster, fan: RayFan, i: nat, s: SweepState)
    requires WithinRange(cast)
    ensures var r := Sweep(cast, fan, i, s);
      r.rayLength <= s.rayLength && (0.0 <= s.rayLength ==> 0.0 <= r.rayLength)
    decreases |fan.rays| - i
  {
    if i < |fan.rays| {
      var h := fan.Cast(cast, i, s.rayLength);
      SweepRayLengthNonIncreasing(cast, fan, i + 1, Step(h, fan.dir, s));
    }
  }

  /** When the hits of the remaining rays are at least a skin width away,
      a pass keeps the rays
      exactly a skin width longer than the displacement it allows, so the
      component keeps its direction and never grows. */
  lemma {:induction false} SweepStaysWithinRequest(cast: Raycaster, fan: RayFan, i: nat, s: SweepState)
    requires HitsClearOfSkin(cast, fan, i)
    requires fan.dir == 1.0 || fan.dir == -1.0
    requires SkinWidth <= s.rayLength && s.along * fan.dir == s.rayLength - SkinWidth
    ensures var r := Sweep(cast, fan, i, s);
      SkinWidth <= r.rayLength <= s.rayLength && r.along * fan.dir == r.rayLength - SkinWidth
    decreases |fan.rays| - i
  {
    if i < |fan.rays| {
      var h := fan.Cast(cast, i, s.rayLength);
      var next := Step(h, fan.dir, s);
      if h.Hit? {
        assert (h.distance - SkinWidth) * fan.dir * fan.dir == h.distance - SkinWidth;
      }
      SweepStaysWithinRequest(cast, fan, i + 1, next);
    }
  }

  /** A whole pass started from `Opening(along)` in the direction of
      `along` ends with a component of the same sign and no larger
      magnitude. */
  lemma ClampedComponent(cast: Raycaster, fan: RayFan, along: real)
    requires HitsClearOfSkin(cast, fan, 0)
    requires fan.dir == Sign(along)
    ensures var r := Sweep(cast, fan, 0, Opening(along));
      Abs(r.along) <= Abs(along) && (along < 0.0 ==> r.along <= 0.0) && (0.0 < along ==> 0.0 <= r.along)
  {
    var r := Sweep(cast, fan, 0, Opening(along));
    SweepStaysWithinRequest(cast, fan, 0, Opening(along));
    assert 0.0 <= r.along * fan.dir <= Abs(along);
  }

  /** A pass against one flat obstacle that every remaining ray meets at
      the same distance `d`, whenever it is cast at least that long, ends
      with the component cut to stop a skin width short of the obstacle. */
  lemma {:induction false} SweepAgainstFlatObstacle(cast: Raycaster, fan: RayFan, i: nat, s: SweepState, d: real)
    requires forall k, len :: i <= k < |fan.rays| ==>
      fan.Cast(cast, k, len) == (if d <= len then Hit(d) else Miss)
    requires i < |fan.rays| && d <= s.rayLength
    ensures Sweep(cast, fan, i, s) == SweepState((d - SkinWidth) * fan.dir, d, true)
    decreases |fan.rays| - i
  {
    var next := Step(fan.Cast(cast, i, s.rayLength), fan.dir, s);
    assert next == SweepState((d - SkinWidth) * fan.dir, d, true);
    if i + 1 < |fan.rays| {
      SweepAgainstFlatObstacle(cast, fan, i + 1, next, d);
    }
  }

  /** The outcome of a collision pass: the velocity and the contact flags. */
  datatype Resolution = Resolution(velocity: Vec3, contacts: CollisionsInfo)

  /** `HorizontalCollisions`: clamps only the x component and sets only the
      left/right flags. When every ray misses nothing changes; otherwise
      `left` is set exactly when moving left and `right` exactly otherwise. */
  function ResolveHorizontal(cast: Raycaster, origins: RaycastOrigins, spacing: real, count: int,
                             v: Vec3, c: CollisionsInfo): (r: Resolution)
    ensures r.velocity == v.(x := r.velocity.x)
    ensures r == Resolution(v, c) || r.contacts == c.(left := v.x < 0.0, right := 0.0 <= v.x)
  {
    var fan := HorizontalFan(origins, spacing, count, v);
    var s := Sweep(cast, fan, 0, Opening(v.x));
    Resolution(v.(x := s.along),
               if s.hit then c.(left := fan.dir == -1.0, right := fan.dir == 1.0) else c)
  }

  /** `VerticalCollisions`: clamps only the y component and sets only the
      grounded/above flags. When every ray misses nothing changes; otherwise
      `isGrounded` is set exactly when moving down and `above` exactly
      otherwise. */
  function ResolveVertical(cast: Raycaster, origins: RaycastOrigins, spacing: real, count: int,
                           v: Vec3, c: CollisionsInfo): (r: Resolution)
    ensures r.velocity == v.(y := r.velocity.y)
    ensures r == Resolution(v, c) || r.contacts == c.(isGrounded := v.y < 0.0, above := 0.0 <= v.y)
  {
    var fan := VerticalFan(origins, spacing, count, v);
    var s := Sweep(cast, fan, 0, Opening(v.y));
    Resolution(v.(y := s.along),
               if s.hit then c.(isGrounded := fan.dir == -1.0, above := fan.dir == 1.0) else c)
  }

  /** A horizontal pass changes nothing when every ray misses; otherwise
      `left` is set exactly when moving left and `right` exactly otherwise. */
  lemma HorizontalHits(cast: Raycaster, origins: RaycastOrigins, spacing: real, count: int,
                    v: Vec3, c: CollisionsInfo)
    ensures var r := ResolveHorizontal(cast, origins, spacing, count, v, c);
      if AllMiss(cast, HorizontalFan(origins, spacing, count, v), 0, Abs(v.x) + SkinWidth)
      then r == Resolution(v, c)
      else r.contacts == c.(left := v.x < 0.0, right := 0.0 <= v.x)
  {
    SweepHitsUnlessAllMiss(cast, HorizontalFan(origins, spacing, count, v), 0, Opening(v.x));
  }

  /** A vertical pass changes nothing when every ray misses; otherwise
      `isGrounded` is set exactly when moving down and `above` exactly otherwise. */
  lemma VerticalHits(cast: Raycaster, origins: RaycastOrigins, spacing: real, count: int,
                    v: Vec3, c: CollisionsInfo)
    ensures var r := ResolveVertical(cast, origins, spacing, count, v, c);
      if AllMiss(cast, VerticalFan(origins, spacing, count, v), 0, Abs(v.y) + SkinWidth)
      then r == Resolution(v, c)
      else r.contacts == c.(isGrounded := v.y < 0.0, above := 0.0 <= v.y)
  {
    SweepHitsUnlessAllMiss(cast, VerticalFan(origins, spacing, count, v), 0, Opening(v.y));
  }

  /** The first half of `Move`: the flags cleared, then the horizontal pass
      when x is non-zero. Only x can change, and the vertical flags stay
      clear. */
  function AfterHorizontal(cast: Raycaster, origins: RaycastOrigins, hCount: int, hSpacing: real,
                           v: Vec3, c: CollisionsInfo): (r: Resolution)
    ensures r.velocity == v.(x := r.velocity.x)
    ensures !r.contacts.above && !r.contacts.isGrounded
  {
    var cleared := c.Reset();
    if v.x != 0.0 then ResolveHorizontal(cast, origins, hSpacing, hCount, v, cleared)
    else Resolution(v, cleared)
  }

  /** What `Move` does between refreshing the origins and translating: reset
      the flags, then resolve x when it is non-zero, then y when it is
      non-zero. A flag is set only when the body moved towards that side,
      and an axis whose two flags are clear keeps its requested value. */
  function ResolveMove(cast: Raycaster, origins: RaycastOrigins,
                       hCount: int, hSpacing: real, vCount: int, vSpacing: real,
                       v: Vec3, c: CollisionsInfo): (r: Resolution)
    ensures r.velocity.z == v.z
    ensures r.contacts.left ==> v.x < 0.0
    ensures r.contacts.right ==> 0.0 < v.x
    ensures r.contacts.isGrounded ==> v.y < 0.0
    ensures r.contacts.above ==> 0.0 < v.y
    ensures !(r.contacts.left && r.contacts.right) && !(r.contacts.isGrounded && r.contacts.above)
    ensures !r.contacts.left && !r.contacts.right ==> r.velocity.x == v.x
    ensures !r.contacts.isGrounded && !r.contacts.above ==> r.velocity.y == v.y
  {
    var h := AfterHorizontal(cast, origins, hCount, hSpacing, v, c);
    if h.velocity.y != 0.0 then ResolveVertical(cast, origins, vSpacing, vCount, h.velocity, h.contacts)
    else h
  }

  /** Each flag a move reports is set exactly when the body moved towards
      that side and some ray of that pass hit; the vertical rays are the
      ones shifted by the horizontal velocity already resolved. */
  lemma MoveContacts(cast: Raycaster, origins: RaycastOrigins,
                     hCount: int, hSpacing: real, vCount: int, vSpacing: real,
                     v: Vec3, c: CollisionsInfo)
    ensures var r := ResolveMove(cast, origins, hCount, hSpacing, vCount, vSpacing, v, c);
      var hHit := !AllMiss(cast, HorizontalFan(origins, hSpacing, hCount, v), 0, Abs(v.x) + SkinWidth);
      var shifted := AfterHorizontal(cast, origins, hCount, hSpacing, v, c).velocity;
      var vHit := !AllMiss(cast, VerticalFan(origins, vSpacing, vCount, shifted), 0, Abs(v.y) + SkinWidth);
      (r.contacts.left <==> v.x < 0.0 && hHit) && (r.contacts.right <==> 0.0 < v.x && hHit) &&
      (r.contacts.isGrounded <==> v.y < 0.0 && vHit) && (r.contacts.above <==> 0.0 < v.y && vHit)
  {
    var h := AfterHorizontal(cast, origins, hCount, hSpacing, v, c);
    HorizontalHits(cast, origins, hSpacing, hCount, v, c.Reset());
    VerticalHits(cast, origins, vSpacing, vCount, h.velocity, h.contacts);
  }

  /** In an empty scene a move applies the requested velocity unchanged and
      leaves every contact flag clear. */
  lemma MoveWithoutObstacles(cast: Raycaster, origins: RaycastOrigins,
                             hCount: int, hSpacing: real, vCount: int, vSpacing: real,
                             v: Vec3, c: CollisionsInfo)
    requires forall o: Vec2, d: Vec2, len: real :: cast(o, d, len) == Miss
    ensures ResolveMove(cast, origins, hCount, hSpacing, vCount, vSpacing, v, c)
            == Resolution(v, CollisionsInfo(false, false, false, false))
  {
    var cleared := c.Reset();
    assert AllMiss(cast, HorizontalFan(origins, hSpacing, hCount, v), 0, Abs(v.x) + SkinWidth);
    HorizontalHits(cast, origins, hSpacing, hCount, v, cleared);
    assert AllMiss(cast, VerticalFan(origins, vSpacing, vCount, v), 0, Abs(v.y) + SkinWidth);
    VerticalHits(cast, origins, vSpacing, vCount, v, cleared);
  }

  /** When the hits the rays of the passes a move actually casts can report
      are at least a skin width away, a move never pushes the body farther
      than requested on either axis, nor the other way. A zero component
      casts no fan, so it asks nothing of the scene. */
  lemma MoveStaysWithinRequest(cast: Raycaster, origins: RaycastOrigins,
                               hCount: int, hSpacing: real, vCount: int, vSpacing: real,
                               v: Vec3, c: CollisionsInfo)
    requires v.x != 0.0 ==> HitsClearOfSkin(cast, HorizontalFan(origins, hSpacing, hCount, v), 0)
    requires v.y != 0.0 ==>
               HitsClearOfSkin(cast, VerticalFan(origins, vSpacing, vCount,
                                                 AfterHorizontal(cast, origins, hCount, hSpacing, v, c).velocity), 0)
    ensures var r := ResolveMove(cast, origins, hCount, hSpacing, vCount, vSpacing, v, c);
      Abs(r.velocity.x) <= Abs(v.x) && (v.x < 0.0 ==> r.velocity.x <= 0.0) && (0.0 < v.x ==> 0.0 <= r.velocity.x) &&
      Abs(r.velocity.y) <= Abs(v.y) && (v.y < 0.0 ==> r.velocity.y <= 0.0) && (0.0 < v.y ==> 0.0 <= r.velocity.y)
  {
    if v.x != 0.0 {
      ClampedComponent(cast, HorizontalFan(origins, hSpacing, hCount, v), v.x);
    }
    var h := AfterHorizontal(cast, origins, hCount, hSpacing, v, c);
    if v.y != 0.0 {
      ClampedComponent(cast, VerticalFan(origins, vSpacing, vCount, h.velocity), v.y);
    }
  }

  /** Contacts never carry over: the outcome of a move does not depend on
      the flags the previous move left behind. */
  lemma MoveForgetsPreviousContacts(cast: Raycaster, origins: RaycastOrigins,
                                    hCount: int, hSpacing: real, vCount: int, vSpacing: real,
                                    v: Vec3, c1: CollisionsInfo, c2: CollisionsInfo)
    ensures ResolveMove(cast, origins, hCount, hSpacing, vCount, vSpacing, v, c1)
         == ResolveMove(cast, origins, hCount, hSpacing, vCount, vSpacing, v, c2)
  {
    assert c1.Reset() == c2.Reset();
  }

  /** With origins taken from bounds `b`, horizontal ray `i` starts on the
      leading inset side, `i` spacings above its bottom corner, whatever the
      spacing (also a stale one, computed from other bounds). */
  lemma HorizontalRayOrigin(b: Bounds, spacing: real, dir: real, i: int)
    ensures HorizontalOrigin(InsetCorners(b), spacing, dir, i) ==
      Vec2(if dir == -1.0 then b.Min().x + SkinWidth else b.Max().x - SkinWidth,
           b.Min().y + SkinWidth + spacing * (i as real))
  {
  }

  /** With the spacing `CalculateRaySpacing` derives from a box of the same
      size, the first horizontal ray starts at the leading bottom corner and
      the last at the leading top corner. */
  lemma HorizontalRaysSpanLeadingEdge(b: Bounds, spacing: real, count: int, dir: real)
    requires 2 <= count
    requires spacing == (b.Size().y - 2.0 * SkinWidth) / ((count - 1) as real)
    ensures var o := InsetCorners(b);
      HorizontalOrigin(o, spacing, dir, 0) == (if dir == -1.0 then o.bottomLeft else o.bottomRight) &&
      HorizontalOrigin(o, spacing, dir, count - 1) == (if dir == -1.0 then o.topLeft else o.topRight)
  {
    assert spacing * ((count - 1) as real) == b.Size().y - 2.0 * SkinWidth;
  }

  /** The vertical counterpart: vertical ray `i` starts on the leading inset
      edge, `i` spacings plus the resolved horizontal velocity to the right
      of its left corner, whatever the spacing. */
  lemma VerticalRayOrigin(b: Bounds, spacing: real, dir: real, shiftX: real, i: int)
    ensures VerticalOrigin(InsetCorners(b), spacing, dir, shiftX, i) ==
      Vec2(b.Min().x + SkinWidth + spacing * (i as real) + shiftX,
           if dir == -1.0 then b.Min().y + SkinWidth else b.Max().y - SkinWidth)
  {
  }

  /** With the spacing `CalculateRaySpacing` derives from a box of the same
      size, the last vertical ray starts at the leading right corner shifted
      by the resolved horizontal velocity. */
  lemma VerticalRaysSpanLeadingEdge(b: Bounds, spacing: real, count: int, dir: real, shiftX: real)
    requires 2 <= count
    requires spacing == (b.Size().x - 2.0 * SkinWidth) / ((count - 1) as real)
    ensures var o := InsetCorners(b);
      VerticalOrigin(o, spacing, dir, shiftX, count - 1) ==
        (if dir == -1.0 then o.bottomRight else o.topRight).Plus(Vec2(shiftX, 0.0))
  {
    assert spacing * ((count - 1) as real) == b.Size().x - 2.0 * SkinWidth;
  }

  /** A scene holding only a vertical wall at `x == wallX`, seen by rays
      pointing right that start at or left of it. */
  function WallAt(wallX: real): Raycaster {
    (o: Vec2, d: Vec2, len: real) =>
      if 0.0 < d.x && o.x <= wallX && wallX - o.x <= len then Hit(wallX - o.x) else Miss
  }

  /** A wall the box does not overlap meets the hypothesis of
      `ClampedComponent` for the horizontal pass of a move to the right. */
  lemma WallHitsClearOfSkin(b: Bounds, wallX: real, hCount: int, hSpacing: real, v: Vec3)
    requires b.Max().x <= wallX && 0.0 < v.x
    ensures HitsClearOfSkin(WallAt(wallX), HorizontalFan(InsetCorners(b), hSpacing, hCount, v), 0)
  {
    var o := InsetCorners(b);
    var fan := HorizontalFan(o, hSpacing, hCount, v);
    forall k, len | 0 <= k < |fan.rays| && fan.Cast(WallAt(wallX), k, len).Hit?
      ensures SkinWidth <= fan.Cast(WallAt(wallX), k, len).distance <= len
    {
      assert fan.rays[k].x == o.bottomRight.x;
    }
  }

  /** A box moving right towards a wall it does not overlap stops flush
      against the wall when the wall is within reach, with `right` set, and
      otherwise moves the whole way; the displacement never overshoots the
      wall and is never negative. */
  lemma WallAhead(b: Bounds, wallX: real, hCount: int, hSpacing: real, vCount: int, vSpacing: real,
                  v: Vec3, c: CollisionsInfo)
    requires b.Max().x <= wallX && 0.0 < v.x && v.y == 0.0 && 1 <= hCount
    ensures var r := ResolveMove(WallAt(wallX), InsetCorners(b), hCount, hSpacing, vCount, vSpacing, v, c);
      if wallX - b.Max().x <= v.x
      then r == Resolution(v.(x := wallX - b.Max().x), CollisionsInfo(false, false, false, true))
      else r == Resolution(v, CollisionsInfo(false, false, false, false))
  {
    var o := InsetCorners(b);
    var cast := WallAt(wallX);
    var fan := HorizontalFan(o, hSpacing, hCount, v);
    var d := wallX - o.bottomRight.x;
    forall k, len | 0 <= k < |fan.rays|
      ensures fan.Cast(cast, k, len) == (if d <= len then Hit(d) else Miss)
    {
      assert fan.rays[k].x == o.bottomRight.x;
    }
    if d <= Abs(v.x) + SkinWidth {
      SweepAgainstFlatObstacle(cast, fan, 0, Opening(v.x), d);
    } else {
      assert AllMiss(cast, fan, 0, Abs(v.x) + SkinWidth);
      HorizontalHits(cast, o, hSpacing, hCount, v, c.Reset());
    }
  }

  /** A scene holding only flat ground at `y == groundY`, seen by rays
      pointing down that start at or above it. */
  function GroundAt(groundY: real): Raycaster {
    (o: Vec2, d: Vec2, len: real) =>
      if d.y < 0.0 && groundY <= o.y && o.y - groundY <= len then Hit(o.y - groundY) else Miss
  }

  /** Ground the box does not overlap meets the hypothesis of
      `ClampedComponent` for the vertical pass of a fall. */
  lemma GroundHitsClearOfSkin(b: Bounds, groundY: real, vCount: int, vSpacing: real, v: Vec3)
    requires groundY <= b.Min().y && v.y < 0.0
    ensures HitsClearOfSkin(GroundAt(groundY), VerticalFan(InsetCorners(b), vSpacing, vCount, v), 0)
  {
    var o := InsetCorners(b);
    var fan := VerticalFan(o, vSpacing, vCount, v);
    forall k, len | 0 <= k < |fan.rays| && fan.Cast(GroundAt(groundY), k, len).Hit?
      ensures SkinWidth <= fan.Cast(GroundAt(groundY), k, len).distance <= len
    {
      assert fan.rays[k].y == o.bottomLeft.y;
    }
  }

  /** A box falling straight down onto ground it does not overlap lands
      flush on it, with `isGrounded` set and `above` clear, when the ground
      is within reach, and otherwise falls the whole way. */
  lemma GroundBelow(b: Bounds, groundY: real, hCount: int, hSpacing: real, vCount: int, vSpacing: real,
                    v: Vec3, c: CollisionsInfo)
    requires groundY <= b.Min().y && v.x == 0.0 && v.y < 0.0 && 1 <= vCount
    ensures var r := ResolveMove(GroundAt(groundY), InsetCorners(b), hCount, hSpacing, vCount, vSpacing, v, c);
      if b.Min().y - groundY <= -v.y
      then r == Resolution(v.(y := groundY - b.Min().y), CollisionsInfo(false, true, false, false))
      else r == Resolution(v, CollisionsInfo(false, false, false, false))
  {
    var o := InsetCorners(b);
    var cast := GroundAt(groundY);
    var fan := VerticalFan(o, vSpacing, vCount, v);
    var d := o.bottomLeft.y - groundY;
    forall k, len | 0 <= k < |fan.rays|
      ensures fan.Cast(cast, k, len) == (if d <= len then Hit(d) else Miss)
    {
      assert fan.rays[k].y == o.bottomLeft.y;
    }
    if d <= Abs(v.y) + SkinWidth {
      SweepAgainstFlatObstacle(cast, fan, 0, Opening(v.y), d);
    } else {
      assert AllMiss(cast, fan, 0, Abs(v.y) + SkinWidth);
      VerticalHits(cast, o, vSpacing, vCount, v, c.Reset());
    }
  }

  /** The unit box `[0,1] x [0,1]` asked to move 5 to the right towards a
      wall at `x == 3` moves exactly 2 and touches the wall on its right. */
  lemma UnitBoxAgainstWall(hCount: int, hSpacing: real, vCount: int, vSpacing: real, c: CollisionsInfo)
    requires 1 <= hCount
    ensures ResolveMove(WallAt(3.0), InsetCorners(Bounds(Vec3(0.5, 0.5, 0.0), Vec3(0.5, 0.5, 0.0))),
                        hCount, hSpacing, vCount, vSpacing, Vec3(5.0, 0.0, 0.0), c)
            == Resolution(Vec3(2.0, 0.0, 0.0), CollisionsInfo(false, false, false, true))
  {
    WallAhead(Bounds(Vec3(0.5, 0.5, 0.0), Vec3(0.5, 0.5, 0.0)), 3.0, hCount, hSpacing, vCount, vSpacing,
              Vec3(5.0, 0.0, 0.0), c);
  }

  /** A scene holding only the flat top, at `y == top`, of a ledge spanning
      `x0 <= x <= x1`, seen by rays pointing down that start above it and
      within that span. Rays pointing sideways meet nothing, as they do
      when they all start above the ledge. */
  function LedgeAt(x0: real, x1: real, top: real): Raycaster {
    (o: Vec2, d: Vec2, len: real) =>
      if d.y < 0.0 && x0 <= o.x <= x1 && top <= o.y && o.y - top <= len then Hit(o.y - top) else Miss
  }

  /** The horizontal pass of the ledge scene: the sideways rays meet
      nothing, so x stays 2 and no flag is set. */
  lemma LedgeHorizontalPass(hCount: int, hSpacing: real, c: CollisionsInfo)
    ensures AfterHorizontal(LedgeAt(1.5, 10.0, 0.005), InsetCorners(Bounds(Vec3(0.5, 0.5, 0.0), Vec3(0.5, 0.5, 0.0))),
                            hCount, hSpacing, Vec3(2.0, -0.1, 0.0), c)
            == Resolution(Vec3(2.0, -0.1, 0.0), CollisionsInfo(false, false, false, false))
  {
    var o := InsetCorners(Bounds(Vec3(0.5, 0.5, 0.0), Vec3(0.5, 0.5, 0.0)));
    var v := Vec3(2.0, -0.1, 0.0);
    assert AllMiss(LedgeAt(1.5, 10.0, 0.005), HorizontalFan(o, hSpacing, hCount, v), 0, Abs(v.x) + SkinWidth);
    HorizontalHits(LedgeAt(1.5, 10.0, 0.005), o, hSpacing, hCount, v, c.Reset());
  }

  /** The vertical pass of the ledge scene: two rays, cast down from
      (2.015, 0.015) and (2.985, 0.015), both meet the ledge top 0.01 away,
      nearer than the skin width, so y becomes +0.005. */
  lemma LedgeVerticalPass()
    ensures var fan := VerticalFan(InsetCorners(Bounds(Vec3(0.5, 0.5, 0.0), Vec3(0.5, 0.5, 0.0))),
                                   0.97, 2, Vec3(2.0, -0.1, 0.0));
      Sweep(LedgeAt(1.5, 10.0, 0.005), fan, 0, Opening(-0.1)) == SweepState(0.005, 0.01, true) &&
      fan.dir == -1.0 &&
      !HitsClearOfSkin(LedgeAt(1.5, 10.0, 0.005), fan, 0)
  {
    var cast := LedgeAt(1.5, 10.0, 0.005);
    var o := InsetCorners(Bounds(Vec3(0.5, 0.5, 0.0), Vec3(0.5, 0.5, 0.0)));
    var fan := VerticalFan(o, 0.97, 2, Vec3(2.0, -0.1, 0.0));
    assert fan.rays == [Vec2(2.015, 0.015), Vec2(2.985, 0.015)];
    forall k, len | 0 <= k < |fan.rays|
      ensures fan.Cast(cast, k, len) == (if 0.01 <= len then Hit(0.01) else Miss)
    {
    }
    SweepAgainstFlatObstacle(cast, fan, 0, Opening(-0.1), 0.01);
    assert fan.Cast(cast, 0, 1.0) == Hit(0.01);
  }

  /** The unit box moving (2, -0.1) diagonally past a ledge that spans
      `1.5 <= x <= 10` with its top at 0.005, less than a skin width above the
      box's bottom: the horizontal rays pass over the ledge, but the vertical
      rays, cast from where the resolved x has taken the box, meet its top
      nearer than the skin width. The box ends up moving UP by 0.005 although
      it asked to fall, with `isGrounded` set; the vertical pass is outside
      the skin-width hypothesis of the clamp lemmas. */
  lemma LedgeLiftsDiagonalMove(hCount: int, hSpacing: real, c: CollisionsInfo)
    ensures ResolveMove(LedgeAt(1.5, 10.0, 0.005), InsetCorners(Bounds(Vec3(0.5, 0.5, 0.0), Vec3(0.5, 0.5, 0.0))),
                        hCount, hSpacing, 2, 0.97, Vec3(2.0, -0.1, 0.0), c)
            == Resolution(Vec3(2.0, 0.005, 0.0), CollisionsInfo(false, true, false, false))
  {
    LedgeHorizontalPass(hCount, hSpacing, c);
    LedgeVerticalPass();
  }
}
