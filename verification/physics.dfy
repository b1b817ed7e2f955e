/**
  The static Physics class (Physics/Physics.cs): an older, self-contained
  copy of the integrator, swept mover and tile query specialised to
  characters, plus a tile-versus-character side response. Its members are
  defined here on their own and then proved to agree with the system
  classes they duplicate.
 */
module Physics {
  import opened Geometry
  import opened GameConstants
  import Characters
  import Solids
  import CollisionDetector
  import CollisionResolver
  import GravitySystem
  import JumpSystem
  import MovementSystem
  import PhysicsSystem

  /** ApplyGravity on a character: the same rule as GravitySystem's. */
  function ApplyGravity(c: Characters.Character): (r: Characters.Character)
    ensures c.grounded ==> r == c
    ensures !c.grounded ==> r.vel == Vec(c.vel.x, Min(c.vel.y + GRAVITY_STRENGTH, TERMINAL_VELOCITY))
    ensures r == c.(vel := r.vel)
    ensures Solids.CharSolid(r) == GravitySystem.ApplyGravity(Solids.CharSolid(c))
  {
    if !c.grounded then
      var falling := c.(vel := Vec(c.vel.x, c.vel.y + GRAVITY_STRENGTH));
      if falling.vel.y > TERMINAL_VELOCITY then falling.(vel := Vec(falling.vel.x, TERMINAL_VELOCITY))
      else falling
    else c
  }

  /** Jump: the same rule as JumpSystem.HandleJump. */
  function Jump(c: Characters.Character, jumpPressed: bool): (r: Characters.Character)
    ensures r == JumpSystem.HandleJump(c, jumpPressed)
  {
    if c.grounded && c.canJump && jumpPressed then
      c.(vel := Vec(c.vel.x, JUMP_FORCE), canJump := false, grounded := false)
    else c
  }

  /** CheckCollision: the character's box and the rectangle intersect, in either order. */
  function CheckCollision(c: Characters.Character, other: Rect): (r: bool)
    ensures r <==> Intersects(other, Characters.AABB(c))
  {
    IntersectsSymmetric(Characters.AABB(c), other);
    Intersects(Characters.AABB(c), other)
  }

  /**
    HandleTileCollision: an else-if chain over the four sides, each taken
    when its overlap is the minimum and the velocity gate holds. The first
    matching branch fires and no other (the wall branches and the
    fall-through are stated by TileWallBranches).
   */
  function HandleTileCollision(c: Characters.Character, tile: Rect): (r: Characters.Character)
    ensures !CheckCollision(c, tile) ==> r == c
    ensures TopLanding(c, tile) ==>
      && Bottom(Characters.AABB(r)) == Top(tile) && Characters.Position(r).x == Characters.Position(c).x
      && r.vel == Vec(c.vel.x, 0.0) && r.grounded && r.canJump
    ensures CeilingHit(c, tile) ==>
      && Top(Characters.AABB(r)) == Bottom(tile) && Characters.Position(r).x == Characters.Position(c).x
      && r.vel == Vec(c.vel.x, 0.0) && r.grounded == c.grounded && r.canJump == c.canJump
    ensures r == c.(base := r.base, vel := r.vel, grounded := r.grounded, canJump := r.canJump)
  {
    if CheckCollision(c, tile) then
      var box := Characters.AABB(c);
      var oL := CollisionDetector.OverlapLeft(box, tile);
      var oR := CollisionDetector.OverlapRight(box, tile);
      var oT := CollisionDetector.OverlapTop(box, tile);
      var oB := CollisionDetector.OverlapBottom(box, tile);
      var m := Min(Min(oL, oR), Min(oT, oB));
      var p := Characters.Position(c);
      if m == oT && c.vel.y > 0.0 then
        Characters.WithPosition(c, Vec(p.x, Top(tile) - Characters.HalfHeight(c)))
          .(vel := Vec(c.vel.x, 0.0), grounded := true, canJump := true)
      else if m == oB && c.vel.y < 0.0 then
        Characters.WithPosition(c, Vec(p.x, Bottom(tile) + Characters.HalfHeight(c) - Characters.HairHeight(c)))
          .(vel := Vec(c.vel.x, 0.0))
      else if m == oL && c.vel.x < 0.0 then
        Characters.WithPosition(c, Vec(Left(tile) - Characters.HalfWidth(c), p.y)).(vel := Vec(0.0, c.vel.y))
      else if m == oR && c.vel.x > 0.0 then
        Characters.WithPosition(c, Vec(Right(tile) + Characters.HalfWidth(c), p.y)).(vel := Vec(0.0, c.vel.y))
      else c
    else c
  }

  /** v is the smallest of the four directed overlaps of the character's box over the tile. */
  predicate IsMin(c: Characters.Character, tile: Rect, v: real)
  {
    var box := Characters.AABB(c);
    v == Min(Min(CollisionDetector.OverlapLeft(box, tile), CollisionDetector.OverlapRight(box, tile)),
             Min(CollisionDetector.OverlapTop(box, tile), CollisionDetector.OverlapBottom(box, tile)))
  }

  /** The Top branch's guard: overlapping, overlapTop is the minimum, and falling. */
  predicate TopLanding(c: Characters.Character, tile: Rect)
  {
    CheckCollision(c, tile) && IsMin(c, tile, CollisionDetector.OverlapTop(Characters.AABB(c), tile)) && c.vel.y > 0.0
  }

  /** The Bottom branch is reached and taken: overlapBottom is the minimum and rising. */
  predicate CeilingHit(c: Characters.Character, tile: Rect)
  {
    && CheckCollision(c, tile) && !TopLanding(c, tile)
    && IsMin(c, tile, CollisionDetector.OverlapBottom(Characters.AABB(c), tile)) && c.vel.y < 0.0
  }

  /** The Left branch is reached and taken: overlapLeft is the minimum and vx < 0. */
  predicate LeftWallHit(c: Characters.Character, tile: Rect)
  {
    && CheckCollision(c, tile) && !TopLanding(c, tile) && !CeilingHit(c, tile)
    && IsMin(c, tile, CollisionDetector.OverlapLeft(Characters.AABB(c), tile)) && c.vel.x < 0.0
  }

  /** The Right branch is reached and taken: overlapRight is the minimum and vx > 0. */
  predicate RightWallHit(c: Characters.Character, tile: Rect)
  {
    && CheckCollision(c, tile) && !TopLanding(c, tile) && !CeilingHit(c, tile) && !LeftWallHit(c, tile)
    && IsMin(c, tile, CollisionDetector.OverlapRight(Characters.AABB(c), tile)) && c.vel.x > 0.0
  }

  /**
    The wall branches of HandleTileCollision: the box's right edge meets the
    tile's left face, or its left edge the tile's right face, with y kept
    and vx zeroed. When no branch is taken nothing changes.
   */
  lemma TileWallBranches(c: Characters.Character, tile: Rect)
    ensures var r := HandleTileCollision(c, tile);
      && (LeftWallHit(c, tile) ==>
            && Right(Characters.AABB(r)) == Left(tile) && Characters.Position(r).y == Characters.Position(c).y
            && r.vel == Vec(0.0, c.vel.y) && r.grounded == c.grounded && r.canJump == c.canJump)
      && (RightWallHit(c, tile) ==>
            && Left(Characters.AABB(r)) == Right(tile) && Characters.Position(r).y == Characters.Position(c).y
            && r.vel == Vec(0.0, c.vel.y) && r.grounded == c.grounded && r.canJump == c.canJump)
      && (!TopLanding(c, tile) && !CeilingHit(c, tile) && !LeftWallHit(c, tile) && !RightWallHit(c, tile) ==> r == c)
  {
  }

  /** The minimum of the four overlaps is attained by exactly one of them. */
  predicate UniqueMinimum(a: Rect, b: Rect)
  {
    var oL := CollisionDetector.OverlapLeft(a, b);
    var oR := CollisionDetector.OverlapRight(a, b);
    var oT := CollisionDetector.OverlapTop(a, b);
    var oB := CollisionDetector.OverlapBottom(a, b);
    var m := Min(Min(oL, oR), Min(oT, oB));
    (if m == oL then 1 else 0) + (if m == oR then 1 else 0) + (if m == oT then 1 else 0) + (if m == oB then 1 else 0) == 1
  }

  /** The tile response and the resolver agree when overlapTop is the unique minimum. */
  lemma TopAgrees(c: Characters.Character, obj: Solids.Solid)
    requires UniqueMinimum(Characters.AABB(c), Solids.AABB(obj))
    requires CheckCollision(c, Solids.AABB(obj))
    requires IsMin(c, Solids.AABB(obj), CollisionDetector.OverlapTop(Characters.AABB(c), Solids.AABB(obj)))
    ensures HandleTileCollision(c, Solids.AABB(obj)) == CollisionResolver.ResolveCollision(c, obj)
  {
  }

  /** The tile response and the resolver agree when overlapBottom is the unique minimum. */
  lemma BottomAgrees(c: Characters.Character, obj: Solids.Solid)
    requires UniqueMinimum(Characters.AABB(c), Solids.AABB(obj))
    requires CheckCollision(c, Solids.AABB(obj))
    requires IsMin(c, Solids.AABB(obj), CollisionDetector.OverlapBottom(Characters.AABB(c), Solids.AABB(obj)))
    ensures HandleTileCollision(c, Solids.AABB(obj)) == CollisionResolver.ResolveCollision(c, obj)
  {
  }

  /** The tile response and the resolver agree when overlapLeft is the unique minimum. */
  lemma LeftAgrees(c: Characters.Character, obj: Solids.Solid)
    requires UniqueMinimum(Characters.AABB(c), Solids.AABB(obj))
    requires CheckCollision(c, Solids.AABB(obj))
    requires IsMin(c, Solids.AABB(obj), CollisionDetector.OverlapLeft(Characters.AABB(c), Solids.AABB(obj)))
    ensures HandleTileCollision(c, Solids.AABB(obj)) == CollisionResolver.ResolveCollision(c, obj)
  {
  }

  /** The tile response and the resolver agree when overlapRight is the unique minimum. */
  lemma RightAgrees(c: Characters.Character, obj: Solids.Solid)
    requires UniqueMinimum(Characters.AABB(c), Solids.AABB(obj))
    requires CheckCollision(c, Solids.AABB(obj))
    requires IsMin(c, Solids.AABB(obj), CollisionDetector.OverlapRight(Characters.AABB(c), Solids.AABB(obj)))
    ensures HandleTileCollision(c, Solids.AABB(obj)) == CollisionResolver.ResolveCollision(c, obj)
  {
  }

  /**
    Against a tile whose box is that of some solid object, the tile
    response and CollisionResolver.ResolveCollision agree whenever the
    smallest overlap is unique (with ties the else-if chain can fall through
    to a later side, which the resolver never does).
   */
  lemma TileResponseMatchesResolver(c: Characters.Character, obj: Solids.Solid)
    requires UniqueMinimum(Characters.AABB(c), Solids.AABB(obj))
    ensures HandleTileCollision(c, Solids.AABB(obj)) == CollisionResolver.ResolveCollision(c, obj)
  {
    var box, tile := Characters.AABB(c), Solids.AABB(obj);
    if CheckCollision(c, tile) {
      var oL := CollisionDetector.OverlapLeft(box, tile);
      var oR := CollisionDetector.OverlapRight(box, tile);
      var oT := CollisionDetector.OverlapTop(box, tile);
      var oB := CollisionDetector.OverlapBottom(box, tile);
      var m := Min(Min(oL, oR), Min(oT, oB));
      if m == oT {
        TopAgrees(c, obj);
      } else if m == oB {
        BottomAgrees(c, obj);
      } else if m == oL {
        LeftAgrees(c, obj);
      } else {
        RightAgrees(c, obj);
      }
    }
  }

  /**
    The tile test inside HasAnyCollision's loops, written as this class
    writes it: inside the map, a row-major index within the data, a GID in
    1..7, and CheckCollision against the tile's square.
   */
  predicate TileBlocks(c: Characters.Character, g: CollisionDetector.Grid, x: int, y: int)
  {
    if 0 <= x < g.width && 0 <= y < g.height then
      var index := y * g.width + x;
      if 0 <= index < |g.data| then
        var gid := g.data[index];
        1 <= gid <= 7
        && CheckCollision(c, Rect(x as real * TILE_SIZE, y as real * TILE_SIZE, TILE_SIZE, TILE_SIZE))
      else false
    else false
  }

  /** This class's inline tile test is the detector's TileHit on the character's box. */
  lemma TileBlocksIsTileHit(c: Characters.Character, g: CollisionDetector.Grid, x: int, y: int)
    ensures TileBlocks(c, g, x, y) <==> CollisionDetector.TileHit(g, Characters.AABB(c), x, y)
  {
    assert CollisionDetector.GetTileBounds(x, y) == Rect(x as real * TILE_SIZE, y as real * TILE_SIZE, TILE_SIZE, TILE_SIZE);
  }

  /** The inner loop of HasAnyCollision: columns x..right of row y. */
  function ScanRow(c: Characters.Character, g: CollisionDetector.Grid, y: int, x: int, right: int): (r: bool)
    ensures r <==> exists i :: x <= i <= right && CollisionDetector.TileHit(g, Characters.AABB(c), i, y)
    decreases right - x
  {
    if x > right then false
    else
      TileBlocksIsTileHit(c, g, x, y);
      if TileBlocks(c, g, x, y) then true
      else ScanRow(c, g, y, x + 1, right)
  }

  /** The outer loop of HasAnyCollision: rows y..bottom. */
  function ScanRows(c: Characters.Character, g: CollisionDetector.Grid, y: int, bottom: int, left: int, right: int): (r: bool)
    ensures r <==> exists i, j :: y <= j <= bottom && left <= i <= right && CollisionDetector.TileHit(g, Characters.AABB(c), i, j)
    decreases bottom - y
  {
    if y > bottom then false
    else if ScanRow(c, g, y, left, right) then true
    else ScanRows(c, g, y + 1, bottom, left, right)
  }

  /**
    HasAnyCollision: truncate the box edges to tile indices, scan that
    index rectangle, and report whether some in-map tile with a GID in 1..7
    intersects the character's box; the same answer as the detector's
    tile query on that box.
   */
  function HasAnyCollision(c: Characters.Character, g: CollisionDetector.Grid): (r: bool)
    ensures r <==> exists x, y :: CollisionDetector.TileHit(g, Characters.AABB(c), x, y)
    ensures r == CollisionDetector.CheckTileCollision(Characters.AABB(c), g)
  {
    var box := Characters.AABB(c);
    var leftTile := Trunc(Left(box) / TILE_SIZE);
    var rightTile := Trunc(Right(box) / TILE_SIZE);
    var topTile := Trunc(Top(box) / TILE_SIZE);
    var bottomTile := Trunc(Bottom(box) / TILE_SIZE);
    var found := ScanRows(c, g, topTile, bottomTile, leftTile, rightTile);
    assert (exists x, y :: CollisionDetector.TileHit(g, box, x, y)) ==> found by {
      if exists x, y :: CollisionDetector.TileHit(g, box, x, y) {
        var x, y :| CollisionDetector.TileHit(g, box, x, y);
        CollisionDetector.HitInScanRange(g, box, x, y);
      }
    }
    found
  }

  /** The character moved to the point a fraction f of the way along (dx, dy). */
  function At(c: Characters.Character, start: Vec, dx: real, dy: real, f: real): Characters.Character
  {
    Characters.WithPosition(c, Vec(start.x + dx * f, start.y + dy * f))
  }

  /** The probe at step k of this class's march is collision-free. */
  predicate FreeStep(c: Characters.Character, g: CollisionDetector.Grid, start: Vec, dx: real, dy: real,
                     dist: real, k: nat)
    requires dist > 0.0
  {
    !HasAnyCollision(At(c, start, dx, dy, MovementSystem.StepFraction(k, dist)), g)
  }

  /** Every probe of steps 0..k is collision-free. */
  predicate FreeThrough(c: Characters.Character, g: CollisionDetector.Grid, start: Vec, dx: real, dy: real,
                        dist: real, k: nat)
    requires dist > 0.0
  {
    forall j: nat :: j <= k ==> FreeStep(c, g, start, dx, dy, dist, j)
  }

  /** Step k is the last collision-free probe: in range, free with all before it, and the next one is out of range or collides. */
  predicate LastFreeStep(c: Characters.Character, g: CollisionDetector.Grid, start: Vec, dx: real, dy: real,
                         dist: real, k: nat)
    requires dist > 0.0
  {
    && k as real * SWEEP_STEP < dist
    && FreeThrough(c, g, start, dx, dy, dist, k)
    && ((k + 1) as real * SWEEP_STEP >= dist || !FreeStep(c, g, start, dx, dy, dist, k + 1))
  }

  /**
    The march loop of this class's FindMaxSafeDistance from step k on, with
    `safe` the fraction of step k - 1 when k > 0 and every probe before step
    k free. It returns the fraction of the last free probe before the first
    colliding one.
   */
  function March(c: Characters.Character, g: CollisionDetector.Grid, start: Vec, dx: real, dy: real,
                 dist: real, k: nat, safe: real): (r: real)
    requires dist > 0.0
    requires 0.0 <= safe < 1.0
    requires k > 0 ==>
      && (k - 1) as real * SWEEP_STEP < dist
      && safe == MovementSystem.StepFraction(k - 1, dist)
      && FreeThrough(c, g, start, dx, dy, dist, k - 1)
    ensures 0.0 <= r < 1.0
    ensures !HasAnyCollision(At(c, start, dx, dy, safe), g) ==> !HasAnyCollision(At(c, start, dx, dy, r), g)
    ensures k > 0 || FreeStep(c, g, start, dx, dy, dist, 0) ==>
      exists m: nat :: LastFreeStep(c, g, start, dx, dy, dist, m) && r == MovementSystem.StepFraction(m, dist)
    decreases MovementSystem.MarchBound(dist) - k
  {
    if k as real * SWEEP_STEP < dist then
      var f := MovementSystem.StepFraction(k, dist);
      if HasAnyCollision(At(c, start, dx, dy, f), g) then
        assert k > 0 ==> LastFreeStep(c, g, start, dx, dy, dist, k - 1);
        safe
      else
        assert FreeThrough(c, g, start, dx, dy, dist, k) by {
          forall j: nat | j <= k ensures FreeStep(c, g, start, dx, dy, dist, j) {
            if j < k {
              assert FreeThrough(c, g, start, dx, dy, dist, k - 1);
            }
          }
        }
        March(c, g, start, dx, dy, dist, k + 1, f)
    else
      assert k > 0 ==> LastFreeStep(c, g, start, dx, dy, dist, k - 1);
      safe
  }

  /** A probe of this class's march tests the same box as the corresponding probe of MovementSystem's. */
  lemma ProbeAgrees(c: Characters.Character, g: CollisionDetector.Grid, start: Vec, dx: real, dy: real, f: real)
    ensures Solids.SetPos(Solids.CharSolid(c), MovementSystem.Probe(start, dx, dy, f)) == Solids.CharSolid(At(c, start, dx, dy, f))
    ensures HasAnyCollision(At(c, start, dx, dy, f), g)
        == MovementSystem.Collides(Solids.SetPos(Solids.CharSolid(c), MovementSystem.Probe(start, dx, dy, f)), g)
  {
  }

  /** The free-prefix condition of this class's march is MovementSystem's on the character viewed as a solid. */
  lemma FreeThroughAgrees(c: Characters.Character, g: CollisionDetector.Grid, start: Vec, dx: real, dy: real,
                          dist: real, k: nat)
    requires dist > 0.0
    ensures FreeThrough(c, g, start, dx, dy, dist, k)
        == MovementSystem.FreeThrough(Solids.CharSolid(c), g, start, dx, dy, dist, k)
  {
    forall j: nat
      ensures FreeStep(c, g, start, dx, dy, dist, j)
           == MovementSystem.FreeStep(Solids.CharSolid(c), g, start, dx, dy, dist, j)
    {
      ProbeAgrees(c, g, start, dx, dy, MovementSystem.StepFraction(j, dist));
    }
  }

  /** The march visits the same probes and stops at the same step as MovementSystem's. */
  lemma {:induction false} MarchAgrees(c: Characters.Character, g: CollisionDetector.Grid, start: Vec,
                                       dx: real, dy: real, dist: real, k: nat, safe: real)
    requires dist > 0.0
    requires 0.0 <= safe < 1.0
    requires k > 0 ==>
      && (k - 1) as real * SWEEP_STEP < dist
      && safe == MovementSystem.StepFraction(k - 1, dist)
      && FreeThrough(c, g, start, dx, dy, dist, k - 1)
    ensures k > 0 ==> MovementSystem.FreeThrough(Solids.CharSolid(c), g, start, dx, dy, dist, k - 1)
    ensures March(c, g, start, dx, dy, dist, k, safe)
         == MovementSystem.March(Solids.CharSolid(c), g, start, dx, dy, dist, k, safe)
    decreases MovementSystem.MarchBound(dist) - k
  {
    if k > 0 {
      FreeThroughAgrees(c, g, start, dx, dy, dist, k - 1);
    }
    if k as real * SWEEP_STEP < dist {
      var f := MovementSystem.StepFraction(k, dist);
      ProbeAgrees(c, g, start, dx, dy, f);
      if !HasAnyCollision(At(c, start, dx, dy, f), g) {
        assert FreeThrough(c, g, start, dx, dy, dist, k) by {
          forall j: nat | j <= k ensures FreeStep(c, g, start, dx, dy, dist, j) {
            if j < k {
              assert FreeThrough(c, g, start, dx, dy, dist, k - 1);
            }
          }
        }
        MarchAgrees(c, g, start, dx, dy, dist, k + 1, f);
      }
    }
  }

  /**
    FindMaxSafeDistance: a fraction in [0, 1); 0 when the displacement is
    zero or the start collides; otherwise the fraction of the last
    collision-free probe before the first colliding one; and the same value
    as MovementSystem's search.
   */
  function FindMaxSafeDistance(c: Characters.Character, g: CollisionDetector.Grid, start: Vec,
                               dx: real, dy: real, dist: real): (r: real)
    requires MovementSystem.IsLength(dist, dx, dy)
    ensures 0.0 <= r < 1.0
    ensures r == MovementSystem.FindMaxSafeDistance(Solids.CharSolid(c), g, start, dx, dy, dist)
    ensures dist == 0.0 ==> r == 0.0
    ensures HasAnyCollision(Characters.WithPosition(c, start), g) ==> r == 0.0
    ensures !HasAnyCollision(Characters.WithPosition(c, start), g) ==> !HasAnyCollision(At(c, start, dx, dy, r), g)
    ensures dist > 0.0 && !HasAnyCollision(Characters.WithPosition(c, start), g) ==>
      exists m: nat :: LastFreeStep(c, g, start, dx, dy, dist, m) && r == MovementSystem.StepFraction(m, dist)
  {
    if dist == 0.0 then 0.0
    else
      MarchAgrees(c, g, start, dx, dy, dist, 0, 0.0);
      assert Solids.SetPos(Solids.CharSolid(c), start) == Solids.CharSolid(Characters.WithPosition(c, start));
      assert At(c, start, dx, dy, MovementSystem.StepFraction(0, dist)) == Characters.WithPosition(c, start);
      assert forall f :: Solids.SetPos(Solids.CharSolid(c), MovementSystem.Probe(start, dx, dy, f))
                      == Solids.CharSolid(At(c, start, dx, dy, f));
      March(c, g, start, dx, dy, dist, 0, 0.0)
  }

  /** The tile query on a character is MovementSystem's on the character viewed as a solid. */
  lemma CollidesAgrees(c: Characters.Character, g: CollisionDetector.Grid)
    ensures HasAnyCollision(c, g) == MovementSystem.Collides(Solids.CharSolid(c), g)
  {
  }

  /**
    The blocked branch of MoveWithCollisionCheck on a character: back off to
    the safe fraction and stop the blocked axes, as MovementSystem's blocked
    move does for the character viewed as a solid.
   */
  function BlockedMove(c: Characters.Character, g: CollisionDetector.Grid, dx: real, dy: real,
                       dist: real): (r: Characters.Character)
    requires MovementSystem.IsLength(dist, dx, dy)
    requires MovementSystem.Blocked(Solids.CharSolid(c), g, dx, dy)
    ensures Solids.CharSolid(r) == MovementSystem.BlockedMove(Solids.CharSolid(c), g, dx, dy, dist)
  {
    var start := Characters.Position(c);
    var target := Characters.WithPosition(c, Vec(start.x + dx, start.y + dy));
    assert Solids.CharSolid(target) == MovementSystem.Target(Solids.CharSolid(c), dx, dy);
    var safe := FindMaxSafeDistance(target, g, start, dx, dy, dist);
    var placed := At(target, start, dx, dy, safe);
    ProbeAgrees(target, g, start, dx, dy, safe);
    var stopX := if dx != 0.0 then placed.(vel := Vec(0.0, placed.vel.y)) else placed;
    var result :=
      if dy != 0.0 then
        var stopY := stopX.(vel := Vec(stopX.vel.x, 0.0));
        if dy > 0.0 then stopY.(grounded := true, canJump := true) else stopY
      else stopX;
    assert Solids.CharSolid(result) == MovementSystem.HandleCollisionResponse(Solids.CharSolid(placed), dx, dy);
    result
  }

  /**
    MoveWithCollisionCheck on a character: the same outcome as
    MovementSystem's for the character viewed as a solid.
   */
  function MoveWithCollisionCheck(c: Characters.Character, g: CollisionDetector.Grid, dx: real, dy: real,
                                  dist: real): (r: Characters.Character)
    requires MovementSystem.IsLength(dist, dx, dy)
    ensures Solids.CharSolid(r) == MovementSystem.MoveWithCollisionCheck(Solids.CharSolid(c), g, dx, dy, dist)
    ensures dx == 0.0 && dy == 0.0 ==> r == c
    ensures !HasAnyCollision(c, g) ==> !HasAnyCollision(r, g)
  {
    CollidesAgrees(c, g);
    if dx == 0.0 && dy == 0.0 then c
    else
      var start := Characters.Position(c);
      var target := Characters.WithPosition(c, Vec(start.x + dx, start.y + dy));
      assert Solids.CharSolid(target) == MovementSystem.Target(Solids.CharSolid(c), dx, dy);
      CollidesAgrees(target, g);
      var r := if HasAnyCollision(target, g) then BlockedMove(c, g, dx, dy, dist) else target;
      CollidesAgrees(r, g);
      r
  }

  /** UpdateCharacter: step for step the same tick as PhysicsSystem.UpdateCharacter. */
  function UpdateCharacter(c: Characters.Character, input: Characters.Input, g: CollisionDetector.Grid): (r: Characters.Character)
    ensures r == PhysicsSystem.UpdateCharacter(c, input, g)
    ensures r.vel.y <= TERMINAL_VELOCITY
  {
    var moved :=
      if input.left then c.(vel := Vec(-MOVE_SPEED, c.vel.y))
      else if input.right then c.(vel := Vec(MOVE_SPEED, c.vel.y))
      else
        var slowed := c.(vel := Vec(c.vel.x * FRICTION, c.vel.y));
        if Abs(slowed.vel.x) < FRICTION_CUTOFF then slowed.(vel := Vec(0.0, slowed.vel.y)) else slowed;
    var jumped := Jump(moved, input.jump);
    var airborne := jumped.(grounded := false);
    var falling := ApplyGravity(airborne);
    assert moved == PhysicsSystem.HandleMovementInput(c, input);
    assert falling == PhysicsSystem.Integrate(c, input);
    MovementSystem.AxisLength(falling.vel.x);
    var afterX := MoveWithCollisionCheck(falling, g, falling.vel.x, 0.0, Abs(falling.vel.x));
    assert Solids.CharSolid(afterX) == PhysicsSystem.SweepX(c, input, g);
    MovementSystem.AxisLength(afterX.vel.y);
    MoveWithCollisionCheck(afterX, g, 0.0, afterX.vel.y, Abs(afterX.vel.y))
  }
}
