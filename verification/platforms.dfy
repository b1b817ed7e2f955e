/**
  Moving platforms (GameObjects/Platforms/Platform.cs): a solid box that,
  while activated, steps a fixed number of tiles in one cardinal direction
  and steps back to its origin while deactivated.
 */
module Platforms {
  import opened GameConstants
  import Geometry

  datatype Direction = Left | Right | Up | Down

  /**
    A platform. `activator` is the activator class ("Lever" or "Button"),
    `kind` the type tag shared with its levers or buttons, `moved` the
    distance travelled from the origin, `width`/`height` the bitmap size.
    `vel` and `grounded` are the SolidObject fields a platform inherits.
   */
  datatype Platform = Platform(
    kind: string,
    activator: string,
    dir: Direction,
    tilesToMove: int,
    activated: bool,
    moved: real,
    pos: Geometry.Vec,
    vel: Geometry.Vec,
    grounded: bool,
    width: nat,
    height: nat)

  /** The per-tick displacement for each direction. */
  function DirectionVector(d: Direction): (v: Geometry.Vec)
    ensures v.x == 0.0 || v.y == 0.0
    ensures Geometry.Abs(v.x) + Geometry.Abs(v.y) == MOVE_SPEED
  {
    match d
    case Left => Geometry.Vec(-MOVE_SPEED, 0.0)
    case Right => Geometry.Vec(MOVE_SPEED, 0.0)
    case Up => Geometry.Vec(0.0, -MOVE_SPEED)
    case Down => Geometry.Vec(0.0, MOVE_SPEED)
  }

  /** The constructor: top-left corner at the map object's (x, y - height), at rest, off. */
  function NewPlatform(kind: string, activator: string, dir: Direction, tilesToMove: int,
                       objX: real, objY: real, objHeight: real, width: nat, height: nat): (r: Platform)
    ensures r.pos == Geometry.Vec(objX, objY - objHeight)
    ensures !r.activated && r.moved == 0.0
    ensures r.kind == kind && r.activator == activator && r.dir == dir && r.tilesToMove == tilesToMove
  {
    Platform(kind, activator, dir, tilesToMove, false, 0.0, Geometry.Vec(objX, objY - objHeight),
             Geometry.Vec(0.0, 0.0), false, width, height)
  }

  /** Full travel distance. */
  function TravelLimit(p: Platform): real { p.tilesToMove as real * TILE_SIZE }

  /** Step forward one MOVE_SPEED while the travel limit is not reached. */
  function Activate(p: Platform): (r: Platform)
    ensures p.moved < TravelLimit(p) ==>
      r == p.(moved := p.moved + MOVE_SPEED, pos := Geometry.Add(p.pos, DirectionVector(p.dir)))
    ensures p.moved >= TravelLimit(p) ==> r == p
  {
    if p.moved < TravelLimit(p) then
      p.(moved := p.moved + MOVE_SPEED, pos := Geometry.Add(p.pos, DirectionVector(p.dir)))
    else p
  }

  /** Step back one MOVE_SPEED while away from the origin. */
  function Deactivate(p: Platform): (r: Platform)
    ensures p.moved > 0.0 ==>
      r == p.(moved := p.moved - MOVE_SPEED, pos := Geometry.Sub(p.pos, DirectionVector(p.dir)))
    ensures p.moved <= 0.0 ==> r == p
  {
    if p.moved > 0.0 then
      p.(moved := p.moved - MOVE_SPEED, pos := Geometry.Sub(p.pos, DirectionVector(p.dir)))
    else p
  }

  /** Platform.Update: activate when on, deactivate when off. */
  function Update(p: Platform): (r: Platform)
    ensures r.activated == p.activated && r.kind == p.kind && r.activator == p.activator
  {
    if p.activated then Activate(p) else Deactivate(p)
  }

  /** The collision box: top-left corner at the position, bitmap-sized. */
  function GetAABB(p: Platform): (r: Geometry.Rect)
    ensures Geometry.Left(r) == p.pos.x && Geometry.Top(r) == p.pos.y
    ensures Geometry.Right(r) == p.pos.x + p.width as real && Geometry.Bottom(r) == p.pos.y + p.height as real
  {
    Geometry.Rect(p.pos.x, p.pos.y, p.width as real, p.height as real)
  }

  /** The number of whole steps that fit in the travel limit (0 for a negative tile count). */
  function MaxSteps(p: Platform): nat
  {
    if p.tilesToMove >= 0 then p.tilesToMove * 80 else 0
  }

  /**
    The platform has taken `n` net steps from `origin`: the travelled
    distance is n steps, the position is origin plus n direction vectors,
    and n is within the travel limit.
   */
  ghost predicate AtStep(p: Platform, origin: Geometry.Vec, n: nat)
  {
    var d := DirectionVector(p.dir);
    && p.moved == n as real * MOVE_SPEED
    && p.pos == Geometry.Vec(origin.x + n as real * d.x, origin.y + n as real * d.y)
    && n <= MaxSteps(p)
  }

  /** Whatever the step count, it keeps the travelled distance within [0, limit]. */
  lemma AtStepBounds(p: Platform, origin: Geometry.Vec, n: nat)
    requires AtStep(p, origin, n)
    ensures 0.0 <= p.moved
    ensures p.tilesToMove >= 0 ==> p.moved <= TravelLimit(p)
    ensures p.tilesToMove < 0 ==> p.moved == 0.0
  {
  }

  /** Activate adds one step exactly when the limit is not reached (TILE_SIZE = 80 MOVE_SPEED). */
  lemma ActivateStep(p: Platform, origin: Geometry.Vec, n: nat)
    requires AtStep(p, origin, n)
    ensures AtStep(Activate(p), origin, if n < MaxSteps(p) then n + 1 else n)
  {
    var d := DirectionVector(p.dir);
    if n < MaxSteps(p) {
      assert p.moved < TravelLimit(p);
      assert (n + 1) as real * d.x == n as real * d.x + d.x;
      assert (n + 1) as real * d.y == n as real * d.y + d.y;
    } else {
      assert p.moved >= TravelLimit(p);
    }
  }

  /** Deactivate removes one step exactly when away from the origin. */
  lemma DeactivateStep(p: Platform, origin: Geometry.Vec, n: nat)
    requires AtStep(p, origin, n)
    ensures AtStep(Deactivate(p), origin, if n > 0 then n - 1 else n)
  {
    var d := DirectionVector(p.dir);
    if n > 0 {
      assert (n - 1) as real * d.x == n as real * d.x - d.x;
      assert (n - 1) as real * d.y == n as real * d.y - d.y;
    }
  }

  /** Update keeps the platform on its track within the travel limit. */
  lemma UpdateKeepsTrack(p: Platform, origin: Geometry.Vec, n: nat)
    requires AtStep(p, origin, n)
    ensures p.activated ==> AtStep(Update(p), origin, if n < MaxSteps(p) then n + 1 else n)
    ensures !p.activated ==> AtStep(Update(p), origin, if n > 0 then n - 1 else n)
  {
    if p.activated {
      ActivateStep(p, origin, n);
    } else {
      DeactivateStep(p, origin, n);
    }
  }

  /** A step out followed by a step back restores distance and position. */
  lemma ActivateThenDeactivate(p: Platform)
    requires 0.0 <= p.moved < TravelLimit(p)
    ensures Deactivate(Activate(p)) == p
  {
    var d := DirectionVector(p.dir);
    assert Geometry.Sub(Geometry.Add(p.pos, d), d) == p.pos;
  }
}
