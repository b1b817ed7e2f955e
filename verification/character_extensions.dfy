/**
  The snap responses used when a character runs into a solid object
  (CharacterExtensions.cs). Each places the character's box flush against
  one face of the obstacle's box and zeroes one velocity component. The
  penetration depth they are given is never read, so none of the results
  depends on it.
 */
module CharacterExtensions {
  import opened Geometry
  import Characters
  import Solids

  /** ApplyJumpForce: vy becomes the given force; nothing else changes. */
  function ApplyJumpForce(c: Characters.Character, jumpForce: real): (r: Characters.Character)
    ensures r.vel == Vec(c.vel.x, jumpForce)
    ensures r.(vel := c.vel) == c
  {
    c.(vel := Vec(c.vel.x, jumpForce))
  }

  /**
    SetGroundedState: the box bottom lands on the ground's top, x stays,
    vy becomes 0, and the character is grounded and able to jump.
   */
  function SetGroundedState(c: Characters.Character, ground: Solids.Solid, penetrationDepth: real): (r: Characters.Character)
    ensures Bottom(Characters.AABB(r)) == Top(Solids.AABB(ground))
    ensures Characters.Position(r).x == Characters.Position(c).x
    ensures r.vel == Vec(c.vel.x, 0.0) && r.grounded && r.canJump
    ensures r == c.(base := r.base, vel := r.vel, grounded := true, canJump := true)
  {
    var groundBounds := Solids.AABB(ground);
    var placed := Characters.WithPosition(c, Vec(Characters.Position(c).x, Top(groundBounds) - Characters.HalfHeight(c)));
    placed.(vel := Vec(c.vel.x, 0.0), grounded := true, canJump := true)
  }

  /**
    HandleCeilingCollision: the box top meets the ceiling's bottom (the
    hair offset is taken out), x stays and vy becomes 0; vx, grounded and
    canJump are untouched.
   */
  function HandleCeilingCollision(c: Characters.Character, ceiling: Solids.Solid, penetrationDepth: real): (r: Characters.Character)
    ensures Top(Characters.AABB(r)) == Bottom(Solids.AABB(ceiling))
    ensures Characters.Position(r).x == Characters.Position(c).x
    ensures r.vel == Vec(c.vel.x, 0.0)
    ensures r == c.(base := r.base, vel := r.vel)
  {
    var ceilingBounds := Solids.AABB(ceiling);
    var y := Bottom(ceilingBounds) + Characters.HalfHeight(c) - Characters.HairHeight(c);
    Characters.WithPosition(c, Vec(Characters.Position(c).x, y)).(vel := Vec(c.vel.x, 0.0))
  }

  /**
    HandleWallCollision: against a wall on the character's right
    (`isLeftWall`, the wall's left face) the box's right edge meets it;
    otherwise the box's left edge meets the wall's right face. y stays, vx
    becomes 0 and vy is kept.
   */
  function HandleWallCollision(c: Characters.Character, wall: Solids.Solid, penetrationDepth: real, isLeftWall: bool): (r: Characters.Character)
    ensures isLeftWall ==> Right(Characters.AABB(r)) == Left(Solids.AABB(wall))
    ensures !isLeftWall ==> Left(Characters.AABB(r)) == Right(Solids.AABB(wall))
    ensures Characters.Position(r).y == Characters.Position(c).y
    ensures r.vel == Vec(0.0, c.vel.y)
    ensures r == c.(base := r.base, vel := r.vel)
  {
    var wallBounds := Solids.AABB(wall);
    var x := if isLeftWall then Left(wallBounds) - Characters.HalfWidth(c) else Right(wallBounds) + Characters.HalfWidth(c);
    Characters.WithPosition(c, Vec(x, Characters.Position(c).y)).(vel := Vec(0.0, c.vel.y))
  }

  /** After any snap the character's box no longer overlaps the obstacle. */
  lemma SnapsSeparate(c: Characters.Character, o: Solids.Solid, d: real, isLeftWall: bool)
    ensures !Intersects(Characters.AABB(SetGroundedState(c, o, d)), Solids.AABB(o))
    ensures !Intersects(Characters.AABB(HandleCeilingCollision(c, o, d)), Solids.AABB(o))
    ensures !Intersects(Characters.AABB(HandleWallCollision(c, o, d, isLeftWall)), Solids.AABB(o))
  {
  }

  /** The penetration depth passed to a snap is never read. */
  lemma DepthIgnored(c: Characters.Character, o: Solids.Solid, d1: real, d2: real, isLeftWall: bool)
    ensures SetGroundedState(c, o, d1) == SetGroundedState(c, o, d2)
    ensures HandleCeilingCollision(c, o, d1) == HandleCeilingCollision(c, o, d2)
    ensures HandleWallCollision(c, o, d1, isLeftWall) == HandleWallCollision(c, o, d2, isLeftWall)
  {
  }
}
