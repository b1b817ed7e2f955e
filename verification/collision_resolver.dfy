/**
  Character-versus-object resolution (CollisionSystem/CollisionResolver.cs).
  The side comes from the detector's classification of the character's box
  against the obstacle's box; each side acts only under a velocity gate.
  The horizontal gates are kept as the source writes them: Left acts only
  while vx < 0 and Right only while vx > 0, although the Left side means
  the character is on the obstacle's left.
 */
module CollisionResolver {
  import opened Geometry
  import Characters
  import Solids
  import CollisionDetector
  import CharacterExtensions
  import MovementSystem

  /** The classification of the character's box against the obstacle's. */
  function Info(c: Characters.Character, obj: Solids.Solid): CollisionDetector.CollisionInfo
  {
    CollisionDetector.GetCollisionInfo(Characters.AABB(c), Solids.AABB(obj))
  }

  /** ResolveCollision: dispatch on the side, each under its velocity gate. */
  function ResolveCollision(c: Characters.Character, obj: Solids.Solid): (r: Characters.Character)
    ensures !Intersects(Characters.AABB(c), Solids.AABB(obj)) ==> r == c
    ensures Info(c, obj).side == CollisionDetector.Top && c.vel.y > 0.0 ==>
      && Bottom(Characters.AABB(r)) == Top(Solids.AABB(obj))
      && r.grounded && r.canJump && r.vel.y == 0.0
    ensures Info(c, obj).side == CollisionDetector.Bottom && c.vel.y < 0.0 ==>
      Top(Characters.AABB(r)) == Bottom(Solids.AABB(obj)) && r.vel.y == 0.0
    ensures Info(c, obj).side == CollisionDetector.Left && c.vel.x < 0.0 ==>
      Right(Characters.AABB(r)) == Left(Solids.AABB(obj)) && r.vel.x == 0.0
    ensures Info(c, obj).side == CollisionDetector.Right && c.vel.x > 0.0 ==>
      Left(Characters.AABB(r)) == Right(Solids.AABB(obj)) && r.vel.x == 0.0
    ensures Info(c, obj).side == CollisionDetector.Top && c.vel.y <= 0.0 ==> r == c
    ensures Info(c, obj).side == CollisionDetector.Bottom && c.vel.y >= 0.0 ==> r == c
    ensures Info(c, obj).side == CollisionDetector.Left && c.vel.x >= 0.0 ==> r == c
    ensures Info(c, obj).side == CollisionDetector.Right && c.vel.x <= 0.0 ==> r == c
    ensures Info(c, obj).side in {CollisionDetector.Top, CollisionDetector.Bottom} ==>
      Characters.Position(r).x == Characters.Position(c).x && r.vel.x == c.vel.x
    ensures Info(c, obj).side in {CollisionDetector.Left, CollisionDetector.Right} ==>
      Characters.Position(r).y == Characters.Position(c).y && r.vel.y == c.vel.y
    ensures r == c.(base := r.base, vel := r.vel, grounded := r.grounded, canJump := r.canJump)
  {
    var info := Info(c, obj);
    if !info.hasCollision then c
    else
      match info.side
      case Top => if c.vel.y > 0.0 then CharacterExtensions.SetGroundedState(c, obj, info.depth) else c
      case Bottom => if c.vel.y < 0.0 then CharacterExtensions.HandleCeilingCollision(c, obj, info.depth) else c
      case Left => if c.vel.x < 0.0 then CharacterExtensions.HandleWallCollision(c, obj, info.depth, true) else c
      case Right => if c.vel.x > 0.0 then CharacterExtensions.HandleWallCollision(c, obj, info.depth, false) else c
      case None => c
  }

  /**
    A response that fires always leaves the character's box clear of the
    obstacle; one that does not fire leaves the character where it was.
   */
  lemma ResolveSeparatesOrKeeps(c: Characters.Character, obj: Solids.Solid)
    ensures ResolveCollision(c, obj) == c || !Intersects(Characters.AABB(ResolveCollision(c, obj)), Solids.AABB(obj))
  {
    var info := Info(c, obj);
    if info.hasCollision {
      CharacterExtensions.SnapsSeparate(c, obj, info.depth, info.side == CollisionDetector.Left);
    }
  }

  /** A character with a 20 x 280 idle sprite standing at the origin, walking right. */
  function Walker(): Characters.Character
  {
    Characters.Character("fire", Vec(0.0, 0.0), Vec(0.0, 0.0), Vec(0.2, 0.0),
                         true, true, false, 20, 280, Characters.Idle)
  }

  /** A second character of the same size, idle, whose left face is 0.1 inside the walker's box. */
  function BlockAhead(): Solids.Solid
  {
    Solids.CharSolid(Characters.Character("water", Vec(1.9, 0.0), Vec(0.0, 0.0), Vec(0.0, 0.0),
                                         true, true, false, 20, 280, Characters.Idle))
  }

  /** The walker's box spans x in [-1, 1] and y in [-14, 14]. */
  lemma WalkerBox()
    ensures Characters.AABB(Walker()) == Rect(-1.0, -14.0, 2.0, 28.0)
  {
    var w := Walker();
    assert Characters.HalfWidth(w) == 1.0;
    assert Characters.HalfHeight(w) == 14.0;
    assert Characters.HairHeight(w) == 0.0;
  }

  /** The block's box spans x in [0.9, 2.9] and y in [-14, 14]. */
  lemma BlockBox()
    ensures Solids.AABB(BlockAhead()) == Rect(0.9, -14.0, 2.0, 28.0)
  {
    var b := BlockAhead().ch;
    assert Characters.HalfWidth(b) == 1.0;
    assert Characters.HalfHeight(b) == 14.0;
    assert Characters.HairHeight(b) == 0.0;
  }

  /** Boxes overlapping by 0.1 horizontally and 28 vertically meet on the Left side. */
  lemma ThinOverlapIsLeft()
    ensures var info := CollisionDetector.GetCollisionInfo(Rect(-1.0, -14.0, 2.0, 28.0), Rect(0.9, -14.0, 2.0, 28.0));
      info.hasCollision && info.side == CollisionDetector.Left
  {
    assert Intersects(Rect(-1.0, -14.0, 2.0, 28.0), Rect(0.9, -14.0, 2.0, 28.0));
    assert Min(Min(0.1, 3.9), Min(28.0, 28.0)) == 0.1;
  }

  /** The walker and the block intersect, and the detector says the walker meets the block's Left side. */
  lemma WalkerMeetsBlockOnLeft()
    ensures Intersects(Characters.AABB(Walker()), Solids.AABB(BlockAhead()))
    ensures Info(Walker(), BlockAhead()).side == CollisionDetector.Left
  {
    WalkerBox();
    BlockBox();
    ThinOverlapIsLeft();
  }

  /**
    The inverted horizontal gate as written: a character just left of a
    block and walking right into it (vx > 0) is classified Left and is left
    overlapping the block.
   */
  lemma WalkingIntoWallIsNotResolved()
    ensures Info(Walker(), BlockAhead()).side == CollisionDetector.Left
    ensures ResolveCollision(Walker(), BlockAhead()) == Walker()
    ensures Intersects(Characters.AABB(ResolveCollision(Walker(), BlockAhead())), Solids.AABB(BlockAhead()))
  {
    WalkerMeetsBlockOnLeft();
    var r := ResolveCollision(Walker(), BlockAhead());
    assert Walker().vel.x >= 0.0;
    assert r == Walker();
  }

  /** ResolveCollisionWithLevel: only a (0,0) move, which changes nothing. */
  function ResolveCollisionWithLevel(s: Solids.Solid, g: CollisionDetector.Grid): (r: Solids.Solid)
    ensures r == s
  {
    if !MovementSystem.Collides(s, g) then s
    else MovementSystem.MoveWithCollisionCheck(s, g, 0.0, 0.0, 0.0)
  }
}
