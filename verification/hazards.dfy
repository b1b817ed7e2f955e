/**
  A hazard pool (GameObjects/Hazards/Hazards.cs): fatal to every character
  whose type differs from the pool's. "fire" (lava) and "water" pools
  spare one character each; a "mud" pool spares neither.
 */
module Hazards {
  import opened Geometry
  import opened GameConstants
  import Characters

  datatype Hazard = Hazard(kind: string, pos: Vec, w: real, h: real)

  /** The constructor: the sprite's box stands on the given point. */
  function NewHazard(kind: string, position: Vec, spriteWidth: real, spriteHeight: real): (r: Hazard)
    ensures r.kind == kind
    ensures Bottom(GetAABB(r)) == position.y && Left(GetAABB(r)) == position.x
  {
    Hazard(kind, Vec(position.x, position.y - spriteHeight), spriteWidth, spriteHeight)
  }

  function GetAABB(z: Hazard): (r: Rect)
    ensures Left(r) == z.pos.x && Top(r) == z.pos.y && r.w == z.w && r.h == z.h
  {
    Rect(z.pos.x, z.pos.y, z.w, z.h)
  }

  /** In range: the two boxes intersect, in either order. */
  function IsCharacterInRange(z: Hazard, c: Characters.Character): (r: bool)
    ensures r <==> Intersects(GetAABB(z), Characters.AABB(c))
  {
    IntersectsSymmetric(Characters.AABB(c), GetAABB(z));
    Intersects(Characters.AABB(c), GetAABB(z))
  }

  /** CanInteract: the character shares the pool's type, which makes it safe. */
  predicate CanInteract(z: Hazard, c: Characters.Character)
  {
    c.kind == z.kind
  }

  /** Interact: a character of another type touching the pool dies; nothing else changes. */
  function Interact(z: Hazard, c: Characters.Character): (r: Characters.Character)
    ensures r.dead <==> c.dead || (IsCharacterInRange(z, c) && c.kind != z.kind)
    ensures r == c.(dead := r.dead)
  {
    if IsCharacterInRange(z, c) then
      if !CanInteract(z, c) then c.(dead := true) else c
    else c
  }

  /** A live character touching the pool survives it exactly when it may interact with it. */
  lemma SurvivesIffCanInteract(z: Hazard, c: Characters.Character)
    requires !c.dead && IsCharacterInRange(z, c)
    ensures !Interact(z, c).dead <==> CanInteract(z, c)
  {
  }

  /** A mud pool is fatal to both players. */
  lemma MudKillsBothPlayers(z: Hazard, c: Characters.Character)
    requires z.kind == MUD && (c.kind == FIRE || c.kind == WATER)
    requires IsCharacterInRange(z, c)
    ensures Interact(z, c).dead
  {
  }
}
