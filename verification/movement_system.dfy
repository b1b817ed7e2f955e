/**
  Swept movement against the tile grid (Physics/MovementSystem.cs): try the
  whole displacement; if the target collides, march from the start in
  SWEEP_STEP-long steps, fall back to the last collision-free fraction and
  stop the velocity along the blocked axis.
 */
module MovementSystem {
  import opened Geometry
  import opened GameConstants
  import Characters
  import Solids
  import CollisionDetector
  import JumpSystem

  /** HasCollision(obj, level) for a solid. */
  predicate Collides(s: Solids.Solid, g: CollisionDetector.Grid)
  {
    CollisionDetector.HasLevelCollision(s, g)
  }

  /** The point a fraction f of the way along (dx, dy) from start. */
  function Probe(start: Vec, dx: real, dy: real, f: real): Vec
  {
    Vec(start.x + dx * f, start.y + dy * f)
  }

  /** What Math.Sqrt would return for (dx, dy): the caller supplies it. */
  predicate IsLength(dist: real, dx: real, dy: real)
  {
    dist >= 0.0 && dist * dist == dx * dx + dy * dy
  }

  /** Along one axis the length is the absolute value of the displacement. */
  lemma AxisLength(v: real)
    ensures IsLength(Abs(v), v, 0.0) && IsLength(Abs(v), 0.0, v)
  {
    if v < 0.0 {
      assert Abs(v) * Abs(v) == (-v) * (-v) == v * v;
    }
  }

  /** An upper bound on the number of steps of the march, for termination. */
  function MarchBound(dist: real): int
    requires dist > 0.0
  {
    (dist / SWEEP_STEP).Floor + 1
  }

  /** The fraction of the displacement covered after k steps. */
  function StepFraction(k: nat, dist: real): (f: real)
    requires dist > 0.0
    ensures k as real * SWEEP_STEP < dist ==> 0.0 <= f < 1.0
    ensures k == 0 ==> f == 0.0
  {
    k as real * SWEEP_STEP / dist
  }

  /** The probe at step k of the march is collision-free. */
  predicate FreeStep(s: Solids.Solid, g: CollisionDetector.Grid, start: Vec, dx: real, dy: real,
                     dist: real, k: nat)
    requires dist > 0.0
  {
    !Collides(Solids.SetPos(s, Probe(start, dx, dy, StepFraction(k, dist))), g)
  }

  /** Every probe of steps 0..k is collision-free. */
  predicate FreeThrough(s: Solids.Solid, g: CollisionDetector.Grid, start: Vec, dx: real, dy: real,
                        dist: real, k: nat)
    requires dist > 0.0
  {
    forall j: nat :: j <= k ==> FreeStep(s, g, start, dx, dy, dist, j)
  }

  /**
    Step k is the last collision-free probe the march visits: it lies
    inside the displacement, it and every earlier probe are free, and the
    next step either runs past the displacement or collides.
   */
  predicate LastFreeStep(s: Solids.Solid, g: CollisionDetector.Grid, start: Vec, dx: real, dy: real,
                         dist: real, k: nat)
    requires dist > 0.0
  {
    && k as real * SWEEP_STEP < dist
    && FreeThrough(s, g, start, dx, dy, dist, k)
    && ((k + 1) as real * SWEEP_STEP >= dist || !FreeStep(s, g, start, dx, dy, dist, k + 1))
  }

  /**
    The march loop of FindMaxSafeDistance from step k on, with `safe` the
    fraction last found collision-free (for k > 0, the fraction of step
    k - 1, every probe before step k having been free). Step k tests the
    fraction k * SWEEP_STEP / dist (the source's stepX * currentDistance /
    step, which is dx * currentDistance / dist over exact reals); the loop
    stops at the first colliding probe or once k * SWEEP_STEP reaches dist,
    and returns the fraction of the last free probe.
   */
  function March(s: Solids.Solid, g: CollisionDetector.Grid, start: Vec, dx: real, dy: real,
                 dist: real, k: nat, safe: real): (r: real)
    requires dist > 0.0
    requires 0.0 <= safe < 1.0
    requires k > 0 ==>
      && (k - 1) as real * SWEEP_STEP < dist
      && safe == StepFraction(k - 1, dist)
      && FreeThrough(s, g, start, dx, dy, dist, k - 1)
    ensures 0.0 <= r < 1.0
    ensures !Collides(Solids.SetPos(s, Probe(start, dx, dy, safe)), g) ==>
      !Collides(Solids.SetPos(s, Probe(start, dx, dy, r)), g)
    ensures k == 0 && Collides(Solids.SetPos(s, start), g) ==> r == safe
    ensures k > 0 || FreeStep(s, g, start, dx, dy, dist, 0) ==>
      exists m: nat :: LastFreeStep(s, g, start, dx, dy, dist, m) && r == StepFraction(m, dist)
    decreases MarchBound(dist) - k
  {
    if k as real * SWEEP_STEP < dist then
      var f := StepFraction(k, dist);
      assert k == 0 ==> Probe(start, dx, dy, f) == start;
      if Collides(Solids.SetPos(s, Probe(start, dx, dy, f)), g) then
        assert k > 0 ==> LastFreeStep(s, g, start, dx, dy, dist, k - 1);
        safe
      else
        assert FreeThrough(s, g, start, dx, dy, dist, k) by {
          forall j: nat | j <= k ensures FreeStep(s, g, start, dx, dy, dist, j) {
            if j < k {
              assert FreeThrough(s, g, start, dx, dy, dist, k - 1);
            }
          }
        }
        March(s, g, start, dx, dy, dist, k + 1, f)
    else
      assert k > 0 ==> LastFreeStep(s, g, start, dx, dy, dist, k - 1);
      safe
  }

  /**
    FindMaxSafeDistance: a fraction in [0, 1) of the displacement; 0 when
    the displacement is zero or the start already collides; otherwise the
    fraction of the last collision-free probe before the first colliding
    one (or before the march runs past the displacement).
   */
  function FindMaxSafeDistance(s: Solids.Solid, g: CollisionDetector.Grid, start: Vec,
                               dx: real, dy: real, dist: real): (r: real)
    requires IsLength(dist, dx, dy)
    ensures 0.0 <= r < 1.0
    ensures dist == 0.0 ==> r == 0.0
    ensures Collides(Solids.SetPos(s, start), g) ==> r == 0.0
    ensures !Collides(Solids.SetPos(s, start), g) ==> !Collides(Solids.SetPos(s, Probe(start, dx, dy, r)), g)
    ensures dist > 0.0 && !Collides(Solids.SetPos(s, start), g) ==>
      exists m: nat :: LastFreeStep(s, g, start, dx, dy, dist, m) && r == StepFraction(m, dist)
  {
    if dist == 0.0 then 0.0
    else
      assert Probe(start, dx, dy, 0.0) == start;
      assert Probe(start, dx, dy, StepFraction(0, dist)) == start;
      March(s, g, start, dx, dy, dist, 0, 0.0)
  }

  /**
    HandleCollisionResponse: a blocked horizontal move stops vx; a blocked
    vertical move stops vy, and a blocked downward move also grounds the
    object and, for a character only, re-enables jumping.
   */
  function HandleCollisionResponse(s: Solids.Solid, dx: real, dy: real): (r: Solids.Solid)
    ensures Solids.Pos(r) == Solids.Pos(s) && Solids.AABB(r) == Solids.AABB(s)
    ensures Solids.Vel(r).x == (if dx != 0.0 then 0.0 else Solids.Vel(s).x)
    ensures Solids.Vel(r).y == (if dy != 0.0 then 0.0 else Solids.Vel(s).y)
    ensures Solids.Grounded(r) == (Solids.Grounded(s) || dy > 0.0)
    ensures r.CharSolid? <==> s.CharSolid?
    ensures r.CharSolid? ==>
      r.ch == s.ch.(vel := r.ch.vel, grounded := r.ch.grounded, canJump := s.ch.canJump || dy > 0.0)
    ensures r.PlatformSolid? ==> r.pl == s.pl.(vel := r.pl.vel, grounded := r.pl.grounded)
  {
    var s1 := if dx != 0.0 then Solids.SetVel(s, Vec(0.0, Solids.Vel(s).y)) else s;
    if dy != 0.0 then
      var s2 := Solids.SetVel(s1, Vec(Solids.Vel(s1).x, 0.0));
      if dy > 0.0 then
        var s3 := Solids.SetGrounded(s2, true);
        match s3
        case CharSolid(c) => Solids.CharSolid(c.(canJump := true))
        case PlatformSolid(_) => s3
      else s2
    else s1
  }

  /** The object moved to the end of the full displacement. */
  function Target(s: Solids.Solid, dx: real, dy: real): (r: Solids.Solid)
    ensures Solids.Pos(r) == Vec(Solids.Pos(s).x + dx, Solids.Pos(s).y + dy)
  {
    Solids.SetPos(s, Vec(Solids.Pos(s).x + dx, Solids.Pos(s).y + dy))
  }

  /** The displacement is non-zero and its full target collides. */
  predicate Blocked(s: Solids.Solid, g: CollisionDetector.Grid, dx: real, dy: real)
  {
    !(dx == 0.0 && dy == 0.0) && Collides(Target(s, dx, dy), g)
  }

  /**
    The blocked branch of MoveWithCollisionCheck: back off to the safe
    fraction of the displacement and apply the collision response. From a
    collision-free start the end is collision-free.
   */
  function BlockedMove(s: Solids.Solid, g: CollisionDetector.Grid, dx: real, dy: real, dist: real): (r: Solids.Solid)
    requires IsLength(dist, dx, dy)
    requires Blocked(s, g, dx, dy)
    ensures Solids.Pos(r) == Probe(Solids.Pos(s), dx, dy, FindMaxSafeDistance(Target(s, dx, dy), g, Solids.Pos(s), dx, dy, dist))
    ensures Solids.Vel(r).x == (if dx != 0.0 then 0.0 else Solids.Vel(s).x)
    ensures Solids.Vel(r).y == (if dy != 0.0 then 0.0 else Solids.Vel(s).y)
    ensures Solids.Grounded(r) == (Solids.Grounded(s) || dy > 0.0)
    ensures !Collides(s, g) ==> !Collides(r, g)
    ensures r.CharSolid? <==> s.CharSolid?
    ensures r.CharSolid? ==> r.ch.canJump == (s.ch.canJump || dy > 0.0)
    ensures r.CharSolid? ==> r.ch.kind == s.ch.kind && r.ch.dead == s.ch.dead && r.ch.action == s.ch.action
  {
    var start := Solids.Pos(s);
    var target := Target(s, dx, dy);
    assert Solids.SetPos(target, start) == Solids.SetPos(s, start);
    assert Solids.SetPos(s, start) == s;
    var safe := FindMaxSafeDistance(target, g, start, dx, dy, dist);
    var placed := Solids.SetPos(target, Probe(start, dx, dy, safe));
    assert placed == Solids.SetPos(s, Probe(start, dx, dy, safe));
    HandleCollisionResponse(placed, dx, dy)
  }

  /**
    MoveWithCollisionCheck. A zero displacement changes nothing; a free
    target is reached exactly with velocity untouched; a blocked move stops
    at the safe fraction and applies the collision response. A
    collision-free start always yields a collision-free end.
   */
  function MoveWithCollisionCheck(s: Solids.Solid, g: CollisionDetector.Grid, dx: real, dy: real,
                                  dist: real): (r: Solids.Solid)
    requires IsLength(dist, dx, dy)
    ensures dx == 0.0 && dy == 0.0 ==> r == s
    ensures !Blocked(s, g, dx, dy) ==>
      && Solids.Pos(r) == Vec(Solids.Pos(s).x + dx, Solids.Pos(s).y + dy)
      && Solids.Vel(r) == Solids.Vel(s) && Solids.Grounded(r) == Solids.Grounded(s)
    ensures Blocked(s, g, dx, dy) ==>
      && Solids.Pos(r) == Probe(Solids.Pos(s), dx, dy, FindMaxSafeDistance(Target(s, dx, dy), g, Solids.Pos(s), dx, dy, dist))
      && Solids.Vel(r).x == (if dx != 0.0 then 0.0 else Solids.Vel(s).x)
      && Solids.Vel(r).y == (if dy != 0.0 then 0.0 else Solids.Vel(s).y)
      && Solids.Grounded(r) == (Solids.Grounded(s) || dy > 0.0)
    ensures !Collides(s, g) ==> !Collides(r, g)
    ensures r.CharSolid? <==> s.CharSolid?
    ensures r.CharSolid? ==> r.ch.canJump == (s.ch.canJump || (Blocked(s, g, dx, dy) && dy > 0.0))
    ensures r.CharSolid? ==> r.ch.kind == s.ch.kind && r.ch.dead == s.ch.dead && r.ch.action == s.ch.action
  {
    if dx == 0.0 && dy == 0.0 then s
    else if Collides(Target(s, dx, dy), g) then BlockedMove(s, g, dx, dy, dist)
    else Target(s, dx, dy)
  }

  /** MovementSystem.HandleJump is the same rule as JumpSystem.HandleJump. */
  function HandleJump(c: Characters.Character, jumpPressed: bool): (r: Characters.Character)
    ensures r == JumpSystem.HandleJump(c, jumpPressed)
  {
    if c.grounded && c.canJump && jumpPressed then
      c.(vel := Vec(c.vel.x, JUMP_FORCE), canJump := false, grounded := false)
    else c
  }
}
